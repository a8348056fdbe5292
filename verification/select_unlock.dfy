/** The `selectunlock.aspx` handler: a player spends one available unlock on
    a kit. The handler validates two query parameters, looks the player up,
    marks the chosen unlock as selected and moves one unlock from the
    player's available count to the used count. The stats database is an
    abstract store; the response is the ordered list of lines the handler
    writes. */
module SelectUnlock {
  import opened Common
  import Text

  /** The two counters the handler reads from and writes to the `player` table. */
  datatype PlayerRow = PlayerRow(availUnlocks: int, usedUnlocks: int)

  /** The part of the stats database the handler touches: player rows by id,
      and unlock states keyed by (player id, kit). */
  datatype Store = Store(players: map<int, PlayerRow>, unlocks: map<(int, int), char>)

  /** A value written on a data line. */
  datatype Field = Str(text: string) | Number(value: int)

  /** One call on the ASP response, in the order the handler makes it. */
  datatype Line =
    | ResponseStart(ok: bool)
    | HeaderLine(names: seq<string>)
    | DataLine(values: seq<Field>)
    | Send

  /** The store after the request, the lines written, and whether the handler
      threw (the lines written before the exception are kept). */
  datatype Outcome = Outcome(store: Store, lines: seq<Line>, threw: bool)

  /** The state the handler gives a selected unlock. */
  const Selected: char := 's'

  /** `ContainsKey` then `Int32.TryParse`: an absent or unparsable parameter
      leaves the out variable at 0. */
  function QueryInt(query: map<string, string>, key: string): (v: int)
    ensures IsInt32(v)
    ensures key !in query ==> v == 0
  {
    if key !in query then 0
    else match Text.ParseInt32(query[key])
      case Some(v) => v
      case None => 0
  }

  /** The four lines of a failed request: a failed start, the header
      `asof`/`err`, the timestamp and the message, and the send. */
  function ErrorLines(now: int, message: string): (lines: seq<Line>)
    ensures |lines| == 4 && lines[0] == ResponseStart(false) && lines[3] == Send
  {
    [ResponseStart(false), HeaderLine(["asof", "err"]), DataLine([Number(now), Str(message)]), Send]
  }

  /** The four lines of a successful request: a successful start, the header
      `response` and the data `OK`, and the send. */
  function OkLines(): (lines: seq<Line>)
    ensures |lines| == 4 && lines[0] == ResponseStart(true) && lines[3] == Send
  {
    [ResponseStart(true), HeaderLine(["response"]), DataLine([Str("OK")]), Send]
  }

  /** `UPDATE unlocks SET state = 's' WHERE id = pid AND kit = unlock`: at most
      one row, the one with that key, changes. */
  function MarkSelected(unlocks: map<(int, int), char>, pid: int, unlock: int): (r: map<(int, int), char>)
    ensures r.Keys == unlocks.Keys
    ensures (pid, unlock) in unlocks ==> r[(pid, unlock)] == Selected
    ensures forall key :: key in unlocks && key != (pid, unlock) ==> r[key] == unlocks[key]
  {
    if (pid, unlock) in unlocks then unlocks[(pid, unlock) := Selected] else unlocks
  }

  /** `int.Parse(column.ToString())`: the column value back when it fits in
      32 bits, a failure otherwise. ParseColumnReadsText shows this is what
      parsing the value's decimal text gives. */
  function ParseColumn(value: int): Option<int> {
    if IsInt32(value) then Some(value) else None
  }

  /** Writing a column value as decimal text and parsing the text back as a
      32-bit integer is ParseColumn. */
  lemma ParseColumnReadsText(value: int)
    ensures ParseColumn(value) == Text.ParseInt32(Text.ShowInt(value))
  {
    Text.ParseShowInt(value);
  }

  /** The handler. `now` is the Unix timestamp the error lines carry. The
      unlock update runs before the player's counters are parsed, so a counter
      that does not fit in 32 bits makes the handler throw after the unlock
      has already changed. The counter arithmetic is unchecked C# `int`
      arithmetic. */
  function Handle(query: map<string, string>, store: Store, now: int): (o: Outcome)
    ensures o.threw ==> o.lines == []
    ensures !o.threw ==>
      o.lines in {OkLines(), ErrorLines(now, "Invalid Syntax!"), ErrorLines(now, "Player Doesnt Exist")}
    ensures o.store != store ==>
      QueryInt(query, "pid") != 0 && QueryInt(query, "id") != 0 && QueryInt(query, "pid") in store.players
    ensures o.store.players.Keys == store.players.Keys && o.store.unlocks.Keys == store.unlocks.Keys
    ensures o.lines == OkLines() ==> !o.threw && QueryInt(query, "pid") in store.players
  {
    var pid := QueryInt(query, "pid");
    var unlock := QueryInt(query, "id");
    if pid == 0 || unlock == 0 then
      Outcome(store, ErrorLines(now, "Invalid Syntax!"), false)
    else if pid !in store.players then
      Outcome(store, ErrorLines(now, "Player Doesnt Exist"), false)
    else
      Select(store, pid, unlock)
  }

  /** The two updates for a known player: mark the unlock, then parse the
      player's counters and write them back moved by one. */
  function Select(store: Store, pid: int, unlock: int): (o: Outcome)
    requires pid in store.players
    ensures o.threw <==> !IsInt32(store.players[pid].availUnlocks) || !IsInt32(store.players[pid].usedUnlocks)
    ensures o.lines == if o.threw then [] else OkLines()
    ensures o.store.unlocks == MarkSelected(store.unlocks, pid, unlock)
    ensures o.store.players.Keys == store.players.Keys
    ensures o.threw ==> o.store.players == store.players
    ensures !o.threw ==>
      o.store.players[pid] == PlayerRow(Wrap32(store.players[pid].availUnlocks - 1), Wrap32(store.players[pid].usedUnlocks + 1))
    ensures forall p :: p in store.players && p != pid ==> o.store.players[p] == store.players[p]
  {
    var row := store.players[pid];
    var unlocks := MarkSelected(store.unlocks, pid, unlock);
    match (ParseColumn(row.availUnlocks), ParseColumn(row.usedUnlocks))
      case (Some(avail), Some(used)) =>
        Outcome(Store(store.players[pid := PlayerRow(Wrap32(avail - 1), Wrap32(used + 1))], unlocks), OkLines(), false)
      case _ => Outcome(store.(unlocks := unlocks), [], true)
  }

  // ---------------------------------------------------------------------
  // Properties

  /** The query a client sends for player `pid` and unlock `id`. */
  function Query(pid: int, id: int): map<string, string> {
    map["pid" := Text.ShowInt(pid), "id" := Text.ShowInt(id)]
  }

  /** Each of the three responses the handler can complete is a start, a
      header, a data line and exactly one send, which comes last; only the
      `OK` response starts successfully. */
  lemma ResponseShape(lines: seq<Line>, now: int)
    requires lines in {OkLines(), ErrorLines(now, "Invalid Syntax!"), ErrorLines(now, "Player Doesnt Exist")}
    ensures |lines| == 4 && lines[0].ResponseStart? && lines[1].HeaderLine? && lines[2].DataLine?
    ensures lines[3] == Send && Send !in lines[..3]
    ensures lines[0].ok <==> lines == OkLines()
  {
  }

  /** A missing or unparsable parameter is rejected as invalid syntax before
      the store is consulted, and nothing changes. */
  lemma InvalidSyntax(query: map<string, string>, store: Store, now: int)
    requires "pid" !in query || "id" !in query
          || Text.ParseInt32(query["pid"]).None? || Text.ParseInt32(query["id"]).None?
    ensures Handle(query, store, now) == Outcome(store, ErrorLines(now, "Invalid Syntax!"), false)
  {
  }

  /** A zero id is indistinguishable from a missing one. */
  lemma ZeroIsInvalid(pid: int, store: Store, now: int)
    requires IsInt32(pid)
    ensures Handle(Query(pid, 0), store, now) == Outcome(store, ErrorLines(now, "Invalid Syntax!"), false)
    ensures Handle(Query(0, pid), store, now) == Outcome(store, ErrorLines(now, "Invalid Syntax!"), false)
  {
    Text.ParseShowInt(pid);
    Text.ParseShowInt(0);
  }

  /** Every non-zero 32-bit pair of ids, negative ones included, passes the
      syntax check and reaches the player lookup. */
  lemma NonZeroIdsPass(pid: int, id: int, store: Store, now: int)
    requires IsInt32(pid) && IsInt32(id) && pid != 0 && id != 0
    ensures QueryInt(Query(pid, id), "pid") == pid && QueryInt(Query(pid, id), "id") == id
    ensures Handle(Query(pid, id), store, now).lines != ErrorLines(now, "Invalid Syntax!")
  {
    QueryReadsBack(pid, id);
    var o := Handle(Query(pid, id), store, now);
    assert o == if pid in store.players then Select(store, pid, id)
                else Outcome(store, ErrorLines(now, "Player Doesnt Exist"), false);
  }

  /** The handler reads back the two ids a client put in its query. */
  lemma QueryReadsBack(pid: int, id: int)
    requires IsInt32(pid) && IsInt32(id)
    ensures QueryInt(Query(pid, id), "pid") == pid && QueryInt(Query(pid, id), "id") == id
  {
    var q := Query(pid, id);
    assert "pid" != "id";
    assert q["pid"] == Text.ShowInt(pid) && q["id"] == Text.ShowInt(id);
    Text.ParseShowInt(pid);
    Text.ParseShowInt(id);
  }

  /** An unknown player is reported and nothing changes. */
  lemma UnknownPlayer(pid: int, id: int, store: Store, now: int)
    requires IsInt32(pid) && IsInt32(id) && pid != 0 && id != 0 && pid !in store.players
    ensures Handle(Query(pid, id), store, now) == Outcome(store, ErrorLines(now, "Player Doesnt Exist"), false)
  {
    NonZeroIdsPass(pid, id, store, now);
  }

  /** A successful selection: the response is `OK`; exactly the unlock keyed
      (pid, id) becomes selected, if it exists; the player moves one unlock
      from available to used; every other player is untouched. */
  lemma Selection(pid: int, id: int, store: Store, now: int)
    requires IsInt32(pid) && IsInt32(id) && pid != 0 && id != 0 && pid in store.players
    requires IsInt32(store.players[pid].availUnlocks) && IsInt32(store.players[pid].usedUnlocks)
    requires store.players[pid].availUnlocks > Int32Min && store.players[pid].usedUnlocks < Int32Max
    ensures var o := Handle(Query(pid, id), store, now);
      && !o.threw && o.lines == OkLines()
      && o.store.unlocks == MarkSelected(store.unlocks, pid, id)
      && o.store.players[pid].availUnlocks == store.players[pid].availUnlocks - 1
      && o.store.players[pid].usedUnlocks == store.players[pid].usedUnlocks + 1
      && (forall p :: p in store.players && p != pid ==> o.store.players[p] == store.players[p])
  {
    NonZeroIdsPass(pid, id, store, now);
  }

  /** Nothing guards the available count: a player with none left still
      selects, and the count goes to -1. */
  lemma AvailableMayGoNegative(pid: int, id: int, used: int, now: int)
    requires IsInt32(pid) && IsInt32(id) && pid != 0 && id != 0
    requires 0 <= used < Int32Max
    ensures var store := Store(map[pid := PlayerRow(0, used)], map[]);
      Handle(Query(pid, id), store, now).store.players[pid].availUnlocks == -1
  {
    var store := Store(map[pid := PlayerRow(0, used)], map[]);
    Selection(pid, id, store, now);
  }

  /** Without wrap-around, a selection keeps the player's total of available
      plus used unlocks. */
  lemma TotalKept(pid: int, id: int, store: Store, now: int)
    requires IsInt32(pid) && IsInt32(id) && pid != 0 && id != 0 && pid in store.players
    requires Int32Min < store.players[pid].availUnlocks <= Int32Max
    requires Int32Min <= store.players[pid].usedUnlocks < Int32Max
    ensures var after := Handle(Query(pid, id), store, now).store.players[pid];
      after.availUnlocks + after.usedUnlocks == store.players[pid].availUnlocks + store.players[pid].usedUnlocks
  {
    Selection(pid, id, store, now);
  }

  /** At the edge of the 32-bit range the unchecked arithmetic wraps: a used
      count of `Int32.MaxValue` becomes `Int32.MinValue`. */
  lemma UsedCountWraps(pid: int, id: int, avail: int, now: int)
    requires IsInt32(pid) && IsInt32(id) && pid != 0 && id != 0
    requires Int32Min < avail <= Int32Max
    ensures var store := Store(map[pid := PlayerRow(avail, Int32Max)], map[]);
      Handle(Query(pid, id), store, now).store.players[pid].usedUnlocks == Int32Min
  {
    var store := Store(map[pid := PlayerRow(avail, Int32Max)], map[]);
    NonZeroIdsPass(pid, id, store, now);
    WrapAtEnds();
  }

  /** The same at the other edge: an available count of `Int32.MinValue`
      becomes `Int32.MaxValue`. */
  lemma AvailableCountWraps(pid: int, id: int, used: int, now: int)
    requires IsInt32(pid) && IsInt32(id) && pid != 0 && id != 0
    requires Int32Min <= used < Int32Max
    ensures var store := Store(map[pid := PlayerRow(Int32Min, used)], map[]);
      Handle(Query(pid, id), store, now).store.players[pid].availUnlocks == Int32Max
  {
    var store := Store(map[pid := PlayerRow(Int32Min, used)], map[]);
    NonZeroIdsPass(pid, id, store, now);
    WrapAtEnds();
  }

  /** A counter outside the 32-bit range makes `int.Parse` throw: the unlock
      has already been marked, the counters stay, and no line is written. */
  lemma OversizedCounterThrows(pid: int, id: int, store: Store, now: int)
    requires IsInt32(pid) && IsInt32(id) && pid != 0 && id != 0 && pid in store.players
    requires !IsInt32(store.players[pid].availUnlocks)
    ensures var o := Handle(Query(pid, id), store, now);
      && o.threw && o.lines == []
      && o.store == store.(unlocks := MarkSelected(store.unlocks, pid, id))
  {
    NonZeroIdsPass(pid, id, store, now);
  }
}
