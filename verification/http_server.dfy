/** Request dispatch of the stats web server: the 503 / 405 gates, the
    ASP filename routing table, the browser-site routing with static files
    and their MIME types, the 500 conversion of handler faults, the
    send-once finalisation, and the lifetime of the per-request store handle. */
module HttpServer {
  import opened Common
  import Text

  /** Request methods the server accepts; the comparison is ordinal. */
  const AcceptableMethods: seq<string> := ["GET", "POST", "HEAD"]

  /** Extension (without the dot) to Content-Type for static resources. */
  const MimeTypes: map<string, string> := map[
    "css" := "text/css",
    "gif" := "image/gif",
    "htm" := "text/html",
    "html" := "text/html",
    "ico" := "image/x-icon",
    "jpeg" := "image/jpeg",
    "jpg" := "image/jpeg",
    "js" := "application/x-javascript",
    "png" := "image/png"
  ]

  const StatusOk: int := 200
  const StatusNotFound: int := 404
  const StatusMethodNotAllowed: int := 405
  const StatusInternalServerError: int := 500
  const StatusServiceUnavailable: int := 503

  // ---------------------------------------------------------------------
  // Routing tables

  /** The legacy stats-collector endpoints, one per handler class. */
  datatype AspHandler =
    | SnapshotPost | CreatePlayer | GetBackendInfo | GetAwardsInfo
    | GetClanInfo | GetLeaderBoard | GetMapInfo | GetPlayerID
    | GetPlayerInfo | GetRankInfo | GetUnlocksInfo | RankNotification
    | SearchForPlayers | SelectUnlock
  {
    /** The document name the handler is registered under. */
    function FileName(): string {
      match this
      case SnapshotPost => "bf2statistics.php"
      case CreatePlayer => "createplayer.aspx"
      case GetBackendInfo => "getbackendinfo.aspx"
      case GetAwardsInfo => "getawardsinfo.aspx"
      case GetClanInfo => "getclaninfo.aspx"
      case GetLeaderBoard => "getleaderboard.aspx"
      case GetMapInfo => "getmapinfo.aspx"
      case GetPlayerID => "getplayerid.aspx"
      case GetPlayerInfo => "getplayerinfo.aspx"
      case GetRankInfo => "getrankinfo.aspx"
      case GetUnlocksInfo => "getunlocksinfo.aspx"
      case RankNotification => "ranknotification.aspx"
      case SearchForPlayers => "searchforplayers.aspx"
      case SelectUnlock => "selectunlock.aspx"
    }
  }

  /** The `switch` over ASP document names: a name routes to the handler
      registered under it, and to nothing when no handler has that name. */
  function AspRoute(name: string): (r: Option<AspHandler>)
    ensures r.Some? ==> r.value.FileName() == name
    ensures r.None? ==> forall h: AspHandler :: h.FileName() != name
  {
    if name == "bf2statistics.php" then Some(SnapshotPost)
    else if name == "createplayer.aspx" then Some(CreatePlayer)
    else if name == "getbackendinfo.aspx" then Some(GetBackendInfo)
    else if name == "getawardsinfo.aspx" then Some(GetAwardsInfo)
    else if name == "getclaninfo.aspx" then Some(GetClanInfo)
    else if name == "getleaderboard.aspx" then Some(GetLeaderBoard)
    else if name == "getmapinfo.aspx" then Some(GetMapInfo)
    else if name == "getplayerid.aspx" then Some(GetPlayerID)
    else if name == "getplayerinfo.aspx" then Some(GetPlayerInfo)
    else if name == "getrankinfo.aspx" then Some(GetRankInfo)
    else if name == "getunlocksinfo.aspx" then Some(GetUnlocksInfo)
    else if name == "ranknotification.aspx" then Some(RankNotification)
    else if name == "searchforplayers.aspx" then Some(SearchForPlayers)
    else if name == "selectunlock.aspx" then Some(SelectUnlock)
    else None
  }

  /** A handler file name: lower-case ASCII letters, digits and dots. */
  predicate PlainName(name: string) {
    && |name| > 0
    && forall i :: 0 <= i < |name| ==> 'a' <= name[i] <= 'z' || '0' <= name[i] <= '9' || name[i] == '.'
  }

  /** A plain name has no '/', no upper-case letter, and does not end in white space. */
  lemma PlainNameFacts(name: string)
    requires PlainName(name)
    ensures '/' !in name && Text.NoUpper(name) && !Text.IsWhiteSpace(name[|name| - 1])
  {
  }

  // One lemma per case of the switch: each settles the comparisons of one
  // name against the names before it (which keeps every proof small), and
  // that the name is plain.
  lemma RoutesSnapshotPost()
    ensures AspRoute("bf2statistics.php") == Some(SnapshotPost)
    ensures PlainName("bf2statistics.php")
  {
  }

  lemma RoutesCreatePlayer()
    ensures AspRoute("createplayer.aspx") == Some(CreatePlayer)
    ensures PlainName("createplayer.aspx")
  {
  }

  lemma RoutesGetBackendInfo()
    ensures AspRoute("getbackendinfo.aspx") == Some(GetBackendInfo)
    ensures PlainName("getbackendinfo.aspx")
  {
  }

  lemma RoutesGetAwardsInfo()
    ensures AspRoute("getawardsinfo.aspx") == Some(GetAwardsInfo)
    ensures PlainName("getawardsinfo.aspx")
  {
  }

  lemma RoutesGetClanInfo()
    ensures AspRoute("getclaninfo.aspx") == Some(GetClanInfo)
    ensures PlainName("getclaninfo.aspx")
  {
  }

  lemma RoutesGetLeaderBoard()
    ensures AspRoute("getleaderboard.aspx") == Some(GetLeaderBoard)
    ensures PlainName("getleaderboard.aspx")
  {
  }

  lemma RoutesGetMapInfo()
    ensures AspRoute("getmapinfo.aspx") == Some(GetMapInfo)
    ensures PlainName("getmapinfo.aspx")
  {
  }

  lemma RoutesGetPlayerID()
    ensures AspRoute("getplayerid.aspx") == Some(GetPlayerID)
    ensures PlainName("getplayerid.aspx")
  {
  }

  lemma RoutesGetPlayerInfo()
    ensures AspRoute("getplayerinfo.aspx") == Some(GetPlayerInfo)
    ensures PlainName("getplayerinfo.aspx")
  {
  }

  lemma RoutesGetRankInfo()
    ensures AspRoute("getrankinfo.aspx") == Some(GetRankInfo)
    ensures PlainName("getrankinfo.aspx")
  {
  }

  lemma RoutesGetUnlocksInfo()
    ensures AspRoute("getunlocksinfo.aspx") == Some(GetUnlocksInfo)
    ensures PlainName("getunlocksinfo.aspx")
  {
  }

  lemma RoutesRankNotification()
    ensures AspRoute("ranknotification.aspx") == Some(RankNotification)
    ensures PlainName("ranknotification.aspx")
  {
  }

  lemma RoutesSearchForPlayers()
    ensures AspRoute("searchforplayers.aspx") == Some(SearchForPlayers)
    ensures PlainName("searchforplayers.aspx")
  {
  }

  lemma RoutesSelectUnlock()
    ensures AspRoute("selectunlock.aspx") == Some(SelectUnlock)
    ensures PlainName("selectunlock.aspx")
  {
  }

  /** Every handler is reached through its own name, so the fourteen names
      are pairwise distinct and the table has no shadowed entry; and every
      name is plain. */
  lemma AspRouteRoundTrip(h: AspHandler)
    ensures AspRoute(h.FileName()) == Some(h)
    ensures PlainName(h.FileName())
  {
    match h
    case SnapshotPost => RoutesSnapshotPost();
    case CreatePlayer => RoutesCreatePlayer();
    case GetBackendInfo => RoutesGetBackendInfo();
    case GetAwardsInfo => RoutesGetAwardsInfo();
    case GetClanInfo => RoutesGetClanInfo();
    case GetLeaderBoard => RoutesGetLeaderBoard();
    case GetMapInfo => RoutesGetMapInfo();
    case GetPlayerID => RoutesGetPlayerID();
    case GetPlayerInfo => RoutesGetPlayerInfo();
    case GetRankInfo => RoutesGetRankInfo();
    case GetUnlocksInfo => RoutesGetUnlocksInfo();
    case RankNotification => RoutesRankNotification();
    case SearchForPlayers => RoutesSearchForPlayers();
    case SelectUnlock => RoutesSelectUnlock();
  }

  lemma FileNameInjective(g: AspHandler, h: AspHandler)
    requires g.FileName() == h.FileName()
    ensures g == h
  {
    AspRouteRoundTrip(g);
    AspRouteRoundTrip(h);
  }

  /** Pages of the browser-facing statistics site. */
  datatype StatsPage = HomePage | SearchPage | MyLeaderboardPage | PlayerPage | RankingsPage
  {
    /** The documents that render the page. */
    predicate ServedAt(doc: string) {
      match this
      case HomePage => doc == "" || doc == "home"
      case SearchPage => doc == "search"
      case MyLeaderboardPage => doc == "myleaderboard"
      case PlayerPage => doc == "player"
      case RankingsPage => doc == "rankings"
    }
  }

  /** The `switch` over extensionless site documents. */
  function StatsRoute(doc: string): (r: Option<StatsPage>)
    ensures r.Some? ==> r.value.ServedAt(doc)
    ensures r.None? ==> forall p: StatsPage :: !p.ServedAt(doc)
  {
    if doc == "" || doc == "home" then Some(HomePage)
    else if doc == "search" then Some(SearchPage)
    else if doc == "myleaderboard" then Some(MyLeaderboardPage)
    else if doc == "player" then Some(PlayerPage)
    else if doc == "rankings" then Some(RankingsPage)
    else None
  }

  // ---------------------------------------------------------------------
  // Path normalisation

  /** The requested document: the URL's absolute path, lower-cased and trimmed. */
  function Document(path: string): (r: string)
    ensures |r| <= |path|
    ensures Text.NoUpper(r)
  {
    Text.Trim(Text.Lower(path), Text.IsWhiteSpace)
  }

  /** The ASP document name: every "/asp/" removed. */
  function AspName(doc: string): (r: string)
    ensures |r| <= |doc|
  {
    Text.ReplaceAll(doc, "/asp/", "")
  }

  predicate IsSlash(c: char) {
    c == '/'
  }

  /** The site document: every "/bf2stats" removed, then surrounding '/' trimmed. */
  function StatsDocument(doc: string): (r: string)
    ensures |r| <= |doc|
    ensures |r| > 0 ==> r[0] != '/' && r[|r| - 1] != '/'
  {
    Text.Trim(Text.ReplaceAll(doc, "/bf2stats", ""), IsSlash)
  }

  /** Directory and volume separators that end the search for an extension. */
  predicate IsPathSeparator(c: char) {
    c == '/' || c == '\\' || c == ':'
  }

  /** Whether `path[k]` is the '.' that starts an extension: it is not the final
      character, and no '.' or separator follows it. */
  predicate ExtensionDotAt(path: string, k: int) {
    && 0 <= k < |path| - 1
    && path[k] == '.'
    && forall j :: k < j < |path| ==> path[j] != '.' && !IsPathSeparator(path[j])
  }

  /** `Path.GetExtension(path).TrimStart('.')`, scanning `path[..i]` backwards
      (the characters from `i` on are known to be neither dots nor separators),
      or None where `Path.HasExtension` is false. */
  function ExtensionOf(path: string, i: nat): (r: Option<string>)
    requires i <= |path|
    requires forall k :: i <= k < |path| ==> path[k] != '.' && !IsPathSeparator(path[k])
    ensures r.Some? ==> ExtensionDotAt(path, |path| - |r.value| - 1) && r.value == path[|path| - |r.value|..]
    ensures r.None? ==> forall k :: !ExtensionDotAt(path, k)
    decreases i
  {
    if i == 0 then None
    else if path[i - 1] == '.' then
      if i == |path| then None else Some(path[i..])
    else if IsPathSeparator(path[i - 1]) then None
    else ExtensionOf(path, i - 1)
  }

  /** The extension of a path, if it has one: the part after its extension dot. */
  function Extension(path: string): (r: Option<string>)
    ensures r.Some? ==> ExtensionDotAt(path, |path| - |r.value| - 1) && r.value == path[|path| - |r.value|..]
    ensures r.None? <==> forall k :: !ExtensionDotAt(path, k)
  {
    ExtensionOf(path, |path|)
  }

  // ---------------------------------------------------------------------
  // The request and what the server does with it

  /** What an invoked legacy handler did: it returned or threw, in either case
      having already sent its response or not, and leaving `status` as the
      response's status code (the response starts at 200; handlers may set
      another). */
  datatype HandlerRun = Returned(sent: bool, status: int) | Threw(sent: bool, status: int)
  {
    /** A fault that escapes before anything was sent. */
    predicate FaultedSilently() {
      Threw? && !sent
    }
  }

  /** State of the server and its collaborators when the request arrives. */
  datatype Environment = Environment(
    running: bool,                  // the listener is listening
    storeOpens: bool,               // opening a store handle succeeds
    bf2sEnabled: bool,              // the browser-facing site is switched on
    fileExists: string -> bool      // a static resource exists for the site document
  )

  datatype Request = Request(verb: string, path: string, isAspRequest: bool)

  /** Who ends up serving the request. */
  datatype Target =
    | NoTarget
    | Asp(handler: AspHandler)
    | Page(page: StatsPage)
    | StaticFile(document: string)

  /** What happened to the request's store handle. */
  datatype StoreUse = NotOpened | Leaked | Disposed

  /** Everything observable about one processed request: the status code,
      the Content-Type override, the serving target, the number of times the
      response was sent, the fate of the store handle, and whether the
      handler or page was given that handle. */
  datatype Reply = Reply(status: int, contentType: Option<string>, target: Target, sends: nat, store: StoreUse,
                         storeHanded: bool)

  /** The response state when the routing code returns or throws. */
  datatype Progress = Progress(status: int, contentType: Option<string>, target: Target, sends: nat, threw: bool,
                               storeHanded: bool)

  /** Routing a legacy request. Every handler but the backend-info one is
      constructed with the store handle. */
  function AspResponse(doc: string, run: HandlerRun): (p: Progress)
    ensures p.sends <= 1 && p.contentType == None
    ensures p.target.Asp? || p.target == NoTarget
    ensures p.target.Asp? <==> AspRoute(AspName(doc)).Some?
    ensures p.target.Asp? ==> p.target.handler == AspRoute(AspName(doc)).value
    ensures p.target == NoTarget ==> p.status == StatusNotFound && p.sends == 1 && !p.threw
    ensures p.target.Asp? ==> p.status == run.status && p.threw == run.Threw?
    ensures p.storeHanded <==> p.target.Asp? && p.target.handler != GetBackendInfo
  {
    match AspRoute(AspName(doc))
    case None => Progress(StatusNotFound, None, NoTarget, 1, false, false)
    case Some(h) =>
      var withStore := match h
        case GetBackendInfo => false
        case _ => true;
      Progress(run.status, None, Asp(h), if run.sent then 1 else 0, run.Threw?, withStore)
  }

  /** Routing a site request. `renderOk` says whether building the page or
      reading the file succeeds; on failure nothing has been sent yet. */
  function StatsResponse(doc: string, fileExists: string -> bool, renderOk: bool): (p: Progress)
    ensures p.sends <= 1
    ensures !p.target.Asp?
    ensures p.contentType.Some? ==> p.target.StaticFile? && fileExists(p.target.document)
    ensures p.target == NoTarget ==> p.status == StatusNotFound && p.sends == 1 && !p.threw
    ensures p.target != NoTarget ==> p.status == StatusOk
    ensures p.storeHanded <==> p.target.Page?
  {
    var d := StatsDocument(doc);
    match Extension(d)
    case Some(ext) =>
      if fileExists(d) then
        var contentType := if ext in MimeTypes then Some(MimeTypes[ext]) else None;
        Progress(StatusOk, contentType, StaticFile(d), if renderOk then 1 else 0, !renderOk, false)
      else Progress(StatusNotFound, None, NoTarget, 1, false, false)
    case None =>
      match StatsRoute(d)
      case Some(page) => Progress(StatusOk, None, Page(page), if renderOk then 1 else 0, !renderOk, true)
      case None => Progress(StatusNotFound, None, NoTarget, 1, false, false)
  }

  /** Processing one request. The gates come in a fixed order: 503 when the
      server is stopped or the store cannot be opened, then 405 for a method
      outside the allow-list, then routing. The response is sent exactly once;
      the store handle is disposed on every path past the method check, is never
      opened on the 503 path, and is left undisposed on the 405 path. */
  function ProcessRequest(env: Environment, req: Request, run: HandlerRun, renderOk: bool): (r: Reply)
    ensures r.sends == 1
    ensures !env.running || !env.storeOpens ==> r.status == StatusServiceUnavailable
    ensures r.store == NotOpened <==> !env.running || !env.storeOpens
    ensures r.store == Leaked <==> env.running && env.storeOpens && req.verb !in AcceptableMethods
    ensures r.store == Leaked ==> r.status == StatusMethodNotAllowed
    ensures r.status == StatusMethodNotAllowed ==> r.store == Leaked || r.target.Asp?
    ensures r.store == Disposed <==> env.running && env.storeOpens && req.verb in AcceptableMethods
    ensures r.target != NoTarget ==> r.store == Disposed
    ensures r.target.Asp? <==>
      r.store == Disposed && req.isAspRequest && AspRoute(AspName(Document(req.path))).Some?
    ensures r.target.Asp? ==> r.target.handler == AspRoute(AspName(Document(req.path))).value
    ensures (r.target.Page? || r.target.StaticFile?) ==> !req.isAspRequest && env.bf2sEnabled
    ensures r.contentType.Some? ==> r.target.StaticFile? && env.fileExists(r.target.document)
    ensures r.status == StatusInternalServerError ==> r.target != NoTarget
    ensures r.storeHanded <==>
      r.store == Disposed && (r.target.Page? || (r.target.Asp? && r.target.handler != GetBackendInfo))
  {
    if !env.running || !env.storeOpens then
      Reply(StatusServiceUnavailable, None, NoTarget, 1, NotOpened, false)
    else if req.verb !in AcceptableMethods then
      Reply(StatusMethodNotAllowed, None, NoTarget, 1, Leaked, false)
    else
      var doc := Document(req.path);
      var p :=
        if req.isAspRequest then AspResponse(doc, run)
        else if !env.bf2sEnabled then Progress(StatusServiceUnavailable, None, NoTarget, 1, false, false)
        else StatsResponse(doc, env.fileExists, renderOk);
      // catch: a fault becomes a 500 unless a response already went out
      var failed := p.threw && p.sends == 0;
      var status := if failed then StatusInternalServerError else p.status;
      var sends := if failed then 1 else p.sends;
      // finally: send the default response if nothing was sent
      Reply(status, p.contentType, p.target, if sends == 0 then 1 else sends, Disposed, p.storeHanded)
  }

  // ---------------------------------------------------------------------
  // Properties of dispatch

  /** A stopped server answers 503 whatever the method, so a PUT to a stopped
      server is refused as unavailable and not as a bad method. */
  lemma UnavailableBeforeMethod(env: Environment, req: Request, run: HandlerRun, renderOk: bool)
    requires !env.running
    ensures ProcessRequest(env, req, run, renderOk).status == StatusServiceUnavailable
    ensures ProcessRequest(env, req, run, renderOk).target == NoTarget
  {
  }

  /** The method check is exact: a lower-case "get" is refused with 405 on a
      running server, whatever the path. */
  lemma MethodCaseSensitive(env: Environment, path: string, isAsp: bool, run: HandlerRun, renderOk: bool)
    requires env.running && env.storeOpens
    ensures ProcessRequest(env, Request("get", path, isAsp), run, renderOk).status == StatusMethodNotAllowed
    ensures ProcessRequest(env, Request("PUT", path, isAsp), run, renderOk).status == StatusMethodNotAllowed
  {
  }

  /** A site request while the site is disabled is answered 503 and reaches no page. */
  lemma SiteDisabled(env: Environment, req: Request, run: HandlerRun, renderOk: bool)
    requires env.running && env.storeOpens && req.verb in AcceptableMethods
    requires !req.isAspRequest && !env.bf2sEnabled
    ensures ProcessRequest(env, req, run, renderOk) == Reply(StatusServiceUnavailable, None, NoTarget, 1, Disposed, false)
  {
  }

  /** Upper-case letters in the "/ASP/" prefix do not matter. */
  lemma DocumentFoldsAspPrefix(rest: string)
    ensures Document("/ASP/" + rest) == Document("/asp/" + rest)
  {
    Text.LowerShape("/ASP/", rest);
    Text.LowerShape("/asp/", rest);
    var up := Text.Lower("/ASP/");
    var low := Text.Lower("/asp/");
    assert up[0] == '/' && up[1] == 'a' && up[2] == 's' && up[3] == 'p' && up[4] == '/';
    assert low[0] == '/' && low[1] == 'a' && low[2] == 's' && low[3] == 'p' && low[4] == '/';
    assert up == low;
  }

  /** Every handler is reached from "/asp/" followed by its name. */
  lemma AspRouting(h: AspHandler)
    ensures AspRoute(AspName("/asp/" + h.FileName())) == Some(h)
  {
    var name := h.FileName();
    AspRouteRoundTrip(h);
    PlainNameFacts(name);
    Text.ReplaceLeading("/asp/", name, "");
    Text.ReplaceAbsent(name, "/asp/", "");
    assert AspName("/asp/" + name) == name;
  }

  /** "/asp/" followed by a plain name is already a normalised document. */
  lemma PlainPathIsDocument(name: string)
    requires PlainName(name)
    ensures Document("/asp/" + name) == "/asp/" + name
  {
    var path := "/asp/" + name;
    PlainNameFacts(name);
    assert Text.NoUpper(path) by {
      assert Text.NoUpper("/asp/");
    }
    assert path[|path| - 1] == name[|name| - 1];
    Text.TrimKeepsUntrimmed(path, Text.IsWhiteSpace);
  }

  /** The request path of a handler is already a normalised document. */
  lemma HandlerPathIsDocument(h: AspHandler)
    ensures Document("/asp/" + h.FileName()) == "/asp/" + h.FileName()
  {
    AspRouteRoundTrip(h);
    PlainPathIsDocument(h.FileName());
  }

  /** A request for "/asp/" followed by a handler's name reaches that handler,
      and the handler is given the store handle unless it is the backend-info
      handler, the only one that works without the store. */
  lemma OnlyBackendInfoSkipsStore(env: Environment, verb: string, h: AspHandler, run: HandlerRun, renderOk: bool)
    requires env.running && env.storeOpens && verb in AcceptableMethods
    ensures var r := ProcessRequest(env, Request(verb, "/asp/" + h.FileName(), true), run, renderOk);
      && r.target == Asp(h) && r.store == Disposed
      && (r.storeHanded <==> h != GetBackendInfo)
  {
    HandlerPathIsDocument(h);
    AspRouting(h);
  }

  /** A request the legacy table does not know is answered 404. */
  lemma UnknownAspName(env: Environment, req: Request, run: HandlerRun, renderOk: bool)
    requires env.running && env.storeOpens && req.verb in AcceptableMethods && req.isAspRequest
    requires forall h: AspHandler :: h.FileName() != AspName(Document(req.path))
    ensures ProcessRequest(env, req, run, renderOk).status == StatusNotFound
    ensures ProcessRequest(env, req, run, renderOk).target == NoTarget
  {
  }

  /** A handler fault becomes a 500 when the handler had not sent anything;
      otherwise the response keeps the status the handler left, and nothing
      is sent twice. */
  lemma HandlerFaults(env: Environment, req: Request, run: HandlerRun, renderOk: bool)
    requires env.running && env.storeOpens && req.verb in AcceptableMethods && req.isAspRequest
    requires AspRoute(AspName(Document(req.path))).Some?
    ensures run.FaultedSilently() ==> ProcessRequest(env, req, run, renderOk).status == StatusInternalServerError
    ensures !run.FaultedSilently() ==> ProcessRequest(env, req, run, renderOk).status == run.status
    ensures ProcessRequest(env, req, run, renderOk).sends == 1
  {
  }

  /** Static resources: a present file is served with the Content-Type of its
      extension when the table knows it and with none otherwise; a missing file
      is 404. */
  lemma StaticResource(env: Environment, req: Request, run: HandlerRun)
    requires env.running && env.storeOpens && req.verb in AcceptableMethods
    requires !req.isAspRequest && env.bf2sEnabled
    requires Extension(StatsDocument(Document(req.path))).Some?
    ensures var d := StatsDocument(Document(req.path));
      var ext := Extension(d).value;
      var r := ProcessRequest(env, req, run, true);
      && (env.fileExists(d) ==> r.status == StatusOk && r.target == StaticFile(d))
      && (env.fileExists(d) && ext in MimeTypes ==> r.contentType == Some(MimeTypes[ext]))
      && (ext !in MimeTypes ==> r.contentType == None)
      && (!env.fileExists(d) ==> r.status == StatusNotFound && r.contentType == None)
  {
  }

  /** The nine MIME entries; the two spellings of HTML and of JPEG share a type. */
  lemma MimeTable()
    ensures MimeTypes.Keys == {"css", "gif", "htm", "html", "ico", "jpeg", "jpg", "js", "png"}
    ensures MimeTypes["htm"] == MimeTypes["html"] == "text/html"
    ensures MimeTypes["jpg"] == MimeTypes["jpeg"] == "image/jpeg"
  {
  }

  /** Every page is reached from each document it is served at. */
  lemma StatsRouteComplete(p: StatsPage, doc: string)
    requires p.ServedAt(doc)
    ensures StatsRoute(doc) == Some(p)
  {
    match p
    case HomePage =>
    case SearchPage =>
    case MyLeaderboardPage =>
    case PlayerPage =>
    case RankingsPage =>
  }

  /** An accepted, extensionless site request goes where the page switch sends it. */
  lemma SiteDispatch(env: Environment, req: Request, run: HandlerRun)
    requires env.running && env.storeOpens && req.verb in AcceptableMethods
    requires !req.isAspRequest && env.bf2sEnabled
    requires Extension(StatsDocument(Document(req.path))).None?
    ensures var d := StatsDocument(Document(req.path));
      var r := ProcessRequest(env, req, run, true);
      && (StatsRoute(d).Some? ==> r.target == Page(StatsRoute(d).value) && r.status == StatusOk)
      && (StatsRoute(d).None? ==> r.target == NoTarget && r.status == StatusNotFound)
  {
  }

  /** An extensionless site document reaches exactly the page served at it,
      and is 404 when no page is. */
  lemma SiteRouting(env: Environment, req: Request, run: HandlerRun)
    requires env.running && env.storeOpens && req.verb in AcceptableMethods
    requires !req.isAspRequest && env.bf2sEnabled
    requires Extension(StatsDocument(Document(req.path))).None?
    ensures var d := StatsDocument(Document(req.path));
      var r := ProcessRequest(env, req, run, true);
      && (forall p: StatsPage :: r.target == Page(p) <==> p.ServedAt(d))
      && (r.status == StatusNotFound <==> forall p: StatsPage :: !p.ServedAt(d))
  {
    var d := StatsDocument(Document(req.path));
    SiteDispatch(env, req, run);
    forall p: StatsPage | p.ServedAt(d)
      ensures StatsRoute(d) == Some(p)
    {
      StatsRouteComplete(p, d);
    }
  }

  /** Under the site prefix, a document shorter than the prefix is what is
      left of it once the slashes around it are trimmed. */
  lemma UnderSitePrefix(rest: string)
    requires |rest| < |"/bf2stats"|
    ensures StatsDocument("/bf2stats" + rest) == Text.Trim(rest, IsSlash)
  {
    Text.ReplaceLeading("/bf2stats", rest, "");
    assert Text.ReplaceAll(rest, "/bf2stats", "") == rest;
    assert "" + rest == rest;
  }

  lemma BareHomeDocument()
    ensures StatsDocument("/bf2stats") == ""
  {
    UnderSitePrefix("");
    assert "/bf2stats" + "" == "/bf2stats";
    Text.TrimAllDroppable("", IsSlash);
  }

  lemma SlashHomeDocument()
    ensures StatsDocument("/bf2stats/") == ""
  {
    UnderSitePrefix("/");
    assert "/bf2stats" + "/" == "/bf2stats/";
    Text.TrimAllDroppable("/", IsSlash);
  }

  lemma NamedHomeDocument()
    ensures StatsDocument("/bf2stats/home") == "home"
  {
    UnderSitePrefix("/home");
    assert "/bf2stats" + "/home" == "/bf2stats/home";
    Text.TrimDropsFirst('/', "home", IsSlash);
    assert ['/'] + "home" == "/home";
  }

  /** The site's bare prefix, with or without a trailing slash, is the home
      document, and "/bf2stats/home" is the "home" document. */
  lemma HomeDocuments()
    ensures StatsDocument("/bf2stats") == ""
    ensures StatsDocument("/bf2stats/") == ""
    ensures StatsDocument("/bf2stats/home") == "home"
  {
    BareHomeDocument();
    SlashHomeDocument();
    NamedHomeDocument();
  }
}
