/** Channel enrollment: the `channels` table (one row per server with three
    nullable channel columns), the in-memory index `translateChannels` built
    from it, the slot-wise upsert of `addTranslateChannels`, the membership
    test `isTranslateChannel`, and the reply text of the `/translate` command. */
module Channels {
  import opened Wrappers
  import opened GoStrings

  type ServerId = string
  type ChannelId = string

  /** The number of channel slots that are read and written: `channel_id1` to
      `channel_id3` (the table declares five columns; the last two are unused). */
  const SlotCount := 3

  /** A row of the `channels` table: the three nullable channel columns. */
  type Row = r: seq<Option<ChannelId>> | |r| == SlotCount witness [None, None, None]

  /** The `channels` table, keyed by its unique `server_id`. */
  type Table = map<ServerId, Row>

  /** A value of `translateChannels`: a `[3]string` in which NULL became "". */
  type Entry = e: seq<ChannelId> | |e| == SlotCount witness ["", "", ""]

  /** The in-memory index `translateChannels`. */
  type Index = map<ServerId, Entry>

  const NullRow: Row := [None, None, None]

  /** The row the SELECT of `addTranslateChannels` reads: the stored row, or
      three NULLs when the server has none (`sql.ErrNoRows`). */
  function ExistingRow(table: Table, server: ServerId): Row {
    if server in table then table[server] else NullRow
  }

  /** Slot-wise merge: a supplied channel replaces the slot, a missing one keeps it. */
  function Merge(existing: Row, supplied: Row): Row {
    seq(SlotCount, k requires 0 <= k < SlotCount => if supplied[k].Some? then supplied[k] else existing[k])
  }

  /** The table after `addTranslateChannels(server, …)` has written its row. */
  function Upsert(table: Table, server: ServerId, supplied: Row): (t: Table)
    ensures t.Keys == table.Keys + {server}
    ensures forall s :: s in table && s != server ==> t[s] == table[s]
    ensures forall k :: 0 <= k < SlotCount && supplied[k].Some? ==> t[server][k] == supplied[k]
    ensures forall k :: 0 <= k < SlotCount && supplied[k].None? ==>
      t[server][k] == if server in table then table[server][k] else None
  {
    table[server := Merge(ExistingRow(table, server), supplied)]
  }

  /** `sql.NullString.String`: the stored text, or "" for NULL. */
  function ColumnText(v: Option<ChannelId>): ChannelId {
    v.GetOr("")
  }

  function ProjectRow(row: Row): Entry {
    seq(SlotCount, k requires 0 <= k < SlotCount => ColumnText(row[k]))
  }

  /** What `loadTranslateChannels` builds from the table. */
  function Project(table: Table): (index: Index)
    ensures index.Keys == table.Keys
    ensures forall s, k :: s in table && 0 <= k < SlotCount ==> index[s][k] == table[s][k].GetOr("")
  {
    map s | s in table :: ProjectRow(table[s])
  }

  /** The channel is in some slot of some server's entry, whichever server. */
  predicate Enrolled(index: Index, channel: ChannelId) {
    exists s :: s in index && channel in index[s]
  }

  /** `isTranslateChannel`: the nested loop over every server's slots, with its
      early return. */
  method IsTranslateChannel(index: Index, channel: ChannelId) returns (found: bool)
    ensures found == Enrolled(index, channel)
  {
    var servers := index.Keys;
    while servers != {}
      invariant servers <= index.Keys
      invariant forall s :: s in index && s !in servers ==> channel !in index[s]
      decreases |servers|
    {
      var s :| s in servers;
      var channels := index[s];
      for k := 0 to |channels|
        invariant channel !in channels[..k]
      {
        if channels[k] == channel {
          return true;
        }
        assert channels[..k + 1] == channels[..k] + [channels[k]];
      }
      assert channels[..|channels|] == channels;
      servers := servers - {s};
    }
    return false;
  }

  // ---------------------------------------------------------------------------
  // Properties of enrollment

  /** A non-empty channel ID is enrolled exactly when some server stores it in
      one of its slots. */
  lemma EnrolledIffStored(table: Table, channel: ChannelId)
    requires channel != ""
    ensures Enrolled(Project(table), channel) <==>
      exists s :: s in table && Some(channel) in table[s]
  {
    var index := Project(table);
    if Enrolled(index, channel) {
      var s :| s in index && channel in index[s];
      var k :| 0 <= k < SlotCount && index[s][k] == channel;
      assert table[s][k] == Some(channel);
    }
    if exists s :: s in table && Some(channel) in table[s] {
      var s :| s in table && Some(channel) in table[s];
      var k :| 0 <= k < SlotCount && table[s][k] == Some(channel);
      assert index[s][k] == channel;
    }
  }

  /** Unset slots are stored as "", so the empty channel ID counts as enrolled
      as soon as any server has an unset slot. */
  lemma EmptyIdMatchesUnsetSlot(table: Table, server: ServerId, k: int)
    requires server in table && 0 <= k < SlotCount && table[server][k] == None
    ensures Enrolled(Project(table), "")
  {
    assert Project(table)[server][k] == "";
  }

  /** After an upsert every supplied channel is enrolled. */
  lemma UpsertEnrollsSupplied(table: Table, server: ServerId, supplied: Row, k: int)
    requires 0 <= k < SlotCount && supplied[k].Some?
    ensures Enrolled(Project(Upsert(table, server, supplied)), supplied[k].value)
  {
    var index := Project(Upsert(table, server, supplied));
    assert index[server][k] == supplied[k].value;
  }

  /** Writing the same channels twice is the same as writing them once. */
  lemma UpsertIdempotent(table: Table, server: ServerId, supplied: Row)
    ensures Upsert(Upsert(table, server, supplied), server, supplied) == Upsert(table, server, supplied)
  {
    var once := Upsert(table, server, supplied);
    var twice := Upsert(once, server, supplied);
    assert twice[server] == once[server];
  }

  /** Enrolling channel `c1` in slot 1 and then `c2` in slot 2 keeps both: the
      second call preserves slot 1 and slot 3, and both channels are enrolled. */
  lemma SequentialUpsertsKeepEarlierSlots(table: Table, server: ServerId, c1: ChannelId, c2: ChannelId)
    ensures var t := Upsert(Upsert(table, server, [Some(c1), None, None]), server, [None, Some(c2), None]);
      && t[server] == [Some(c1), Some(c2), ExistingRow(table, server)[2]]
      && Enrolled(Project(t), c1) && Enrolled(Project(t), c2)
  {
    var t1 := Upsert(table, server, [Some(c1), None, None]);
    var t := Upsert(t1, server, [None, Some(c2), None]);
    assert t[server] == [Some(c1), Some(c2), ExistingRow(table, server)[2]];
    assert Project(t)[server][0] == c1;
    assert Project(t)[server][1] == c2;
  }

  // ---------------------------------------------------------------------------
  // The `/translate` command's reply

  /** A channel picked in a command option: its ID and how it is mentioned. */
  datatype ChannelRef = ChannelRef(id: ChannelId, mention: string)

  /** The three command options `channel1` to `channel3`, each possibly absent. */
  type Picks = p: seq<Option<ChannelRef>> | |p| == SlotCount witness [None, None, None]

  /** The slot values `handleTranslateCommand` passes on: the picked channel IDs. */
  function PickedIds(picks: Picks): (r: Row)
    ensures forall k :: 0 <= k < SlotCount ==> (r[k].Some? <==> picks[k].Some?)
    ensures forall k :: 0 <= k < SlotCount && picks[k].Some? ==> r[k] == Some(picks[k].value.id)
  {
    seq(SlotCount, k requires 0 <= k < SlotCount => if picks[k].Some? then Some(picks[k].value.id) else None)
  }

  predicate NonePicked(picks: Picks) {
    picks[0].None? && picks[1].None? && picks[2].None?
  }

  const NoChannelError := "Error: At least one channel must be provided."
  const EnableFailedPrefix := "Failed to enable translation for channels: "

  /** The reply after a successful `/translate`, built as the handler builds
      it: one clause per picked slot, with " and" before every clause but the
      first. */
  function Confirmation(picks: Picks): string {
    var r0 := "Translation enabled for";
    var r1 := if picks[0].Some? then r0 + " channel 1: " + picks[0].value.mention else r0;
    var r2 :=
      if picks[1].Some? then (if picks[0].Some? then r1 + " and" else r1) + " channel 2: " + picks[1].value.mention
      else r1;
    var r3 :=
      if picks[2].Some? then (if picks[0].Some? || picks[1].Some? then r2 + " and" else r2) + " channel 3: " + picks[2].value.mention
      else r2;
    r3
  }

  /** The clause naming slot `k`. */
  function Clause(k: nat, ref: ChannelRef): string
    requires k < SlotCount
  {
    [" channel 1: ", " channel 2: ", " channel 3: "][k] + ref.mention
  }

  /** The clauses of the picked slots among the first `n`, in slot order. */
  function ClausesUpTo(picks: Picks, n: nat): seq<string>
    requires n <= SlotCount
  {
    if n == 0 then []
    else ClausesUpTo(picks, n - 1) + (if picks[n - 1].Some? then [Clause(n - 1, picks[n - 1].value)] else [])
  }

  lemma {:induction false} JoinAppend(parts: seq<string>, x: string, sep: string)
    requires parts != []
    ensures Join(parts + [x], sep) == Join(parts, sep) + sep + x
  {
    if |parts| == 1 {
      assert (parts + [x])[1..] == [x];
    } else {
      assert (parts + [x])[1..] == parts[1..] + [x];
      JoinAppend(parts[1..], x, sep);
    }
  }

  /** One more clause: the reply so far, " and" when something precedes it, and the clause. */
  lemma AppendClause(r: string, parts: seq<string>, x: string)
    requires r == "Translation enabled for" + Join(parts, " and")
    ensures (if parts != [] then r + " and" else r) + x == "Translation enabled for" + Join(parts + [x], " and")
  {
    if parts != [] {
      JoinAppend(parts, x, " and");
    } else {
      assert parts + [x] == [x];
    }
  }

  /** The reply names every picked channel, in slot order, joined by " and". */
  lemma ConfirmationJoinsPickedChannels(picks: Picks)
    ensures Confirmation(picks) == "Translation enabled for" + Join(ClausesUpTo(picks, SlotCount), " and")
  {
    var r0 := "Translation enabled for";
    assert r0 == r0 + Join([], " and");
    var r1 := if picks[0].Some? then r0 + " channel 1: " + picks[0].value.mention else r0;
    if picks[0].Some? {
      AppendClause(r0, [], Clause(0, picks[0].value));
    }
    assert r1 == r0 + Join(ClausesUpTo(picks, 1), " and");
    var r2 :=
      if picks[1].Some? then (if picks[0].Some? then r1 + " and" else r1) + " channel 2: " + picks[1].value.mention
      else r1;
    if picks[1].Some? {
      AppendClause(r1, ClausesUpTo(picks, 1), Clause(1, picks[1].value));
    }
    assert r2 == r0 + Join(ClausesUpTo(picks, 2), " and");
    if picks[2].Some? {
      AppendClause(r2, ClausesUpTo(picks, 2), Clause(2, picks[2].value));
    }
  }
}
