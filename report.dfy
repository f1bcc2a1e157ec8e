/** The rows of the meetings report (utils/report.py): a header, then one
    16-cell row per pair of each listed draw, draws in ascending date order. The workbook
    itself is not modelled, and the date text is an opaque `fmt` function. */
module Report {
  import opened Models

  /** The header row. The second cell of each feedback group is headed
      "Комментарий" but holds the skip reason; the fourth, "Отзыв", holds the comment. */
  function Headers(): (h: seq<string>)
    ensures |h| == 16
  {
    [ "Дата жеребьевки", "Участник 1", "Участник 2", "Участник 3",
      "Встреча состоялась (1)", "Комментарий (1)", "Позитив (1)", "Отзыв (1)",
      "Встреча состоялась (2)", "Комментарий (2)", "Позитив (2)", "Отзыв (2)",
      "Встреча состоялась (3)", "Комментарий (3)", "Позитив (3)", "Отзыв (3)" ]
  }

  /** The participant row an id refers to, if there is one. */
  function FindParticipant(ps: seq<Participant>, id: int): (r: Option<Participant>)
    ensures r.Some? ==> r.value in ps && r.value.id == id
    ensures r.None? ==> forall k :: 0 <= k < |ps| ==> ps[k].id != id
  {
    if ps == [] then None
    else if ps[0].id == id then Some(ps[0])
    else FindParticipant(ps[1..], id)
  }

  /** The three participant slots of a pair: the first and second member,
      then the third member or nothing. */
  function Slots(pair: Pair, ps: seq<Participant>): seq<Option<Participant>> {
    [ FindParticipant(ps, pair.participant1Id),
      FindParticipant(ps, pair.participant2Id),
      match pair.participant3Id
      case None => None
      case Some(id) => FindParticipant(ps, id) ]
  }

  function Name(slot: Option<Participant>): string {
    match slot
    case None => ""
    case Some(p) => p.name
  }

  /** A tri-state answer as a cell. */
  function YesNo(b: Option<bool>): (cell: string)
    ensures cell == "Да" <==> b == Some(true)
    ensures cell == "Нет" <==> b == Some(false)
    ensures cell == "" <==> b == None
  {
    match b
    case Some(true) => "Да"
    case Some(false) => "Нет"
    case None => ""
  }

  /** A nullable text column as a cell. */
  function OrEmpty(text: Option<string>): (cell: string)
    ensures text.None? ==> cell == ""
    ensures text.Some? ==> cell == text.value
  {
    match text
    case None => ""
    case Some(t) => t
  }

  /** `fs[k]` is the last feedback of draw `drawId` from participant `pid`. */
  predicate IsLastFeedback(fs: seq<Feedback>, k: int, drawId: int, pid: int)
    requires 0 <= k < |fs|
  {
    && fs[k].drawId == drawId && fs[k].participantId == pid
    && forall l :: k < l < |fs| ==> !(fs[l].drawId == drawId && fs[l].participantId == pid)
  }

  /** The position of the last feedback of draw `drawId` from participant `pid`. */
  function LastFeedbackIndex(fs: seq<Feedback>, drawId: int, pid: int): (r: Option<nat>)
    ensures r.Some? ==> r.value < |fs| && IsLastFeedback(fs, r.value, drawId, pid)
    ensures r.None? ==> forall k :: 0 <= k < |fs| ==> !(fs[k].drawId == drawId && fs[k].participantId == pid)
    decreases |fs|
  {
    if fs == [] then None
    else if fs[|fs| - 1].drawId == drawId && fs[|fs| - 1].participantId == pid then Some(|fs| - 1)
    else
      var r := LastFeedbackIndex(fs[..|fs| - 1], drawId, pid);
      assert forall k :: 0 <= k < |fs| - 1 ==> fs[..|fs| - 1][k] == fs[k];
      r
  }

  /** The feedback of one draw keyed by participant id (the map built from
      the draw's feedback rows): where a participant answered twice, the
      later row wins. */
  function FeedbackMap(fs: seq<Feedback>, drawId: int): map<int, Feedback>
    decreases |fs|
  {
    if fs == [] then map[]
    else
      var m := FeedbackMap(fs[..|fs| - 1], drawId);
      var last := fs[|fs| - 1];
      if last.drawId == drawId then m[last.participantId := last] else m
  }

  /** A participant has an entry in the map exactly when they answered for
      the draw, and the entry is their last answer. */
  lemma {:induction false} FeedbackMapMeaning(fs: seq<Feedback>, drawId: int)
    ensures forall pid :: pid in FeedbackMap(fs, drawId) <==> LastFeedbackIndex(fs, drawId, pid).Some?
    ensures forall pid :: pid in FeedbackMap(fs, drawId) ==>
      FeedbackMap(fs, drawId)[pid] == fs[LastFeedbackIndex(fs, drawId, pid).value]
    decreases |fs|
  {
    if fs != [] {
      var init, last := fs[..|fs| - 1], fs[|fs| - 1];
      FeedbackMapMeaning(init, drawId);
      assert forall pid :: !(last.drawId == drawId && last.participantId == pid) ==>
        LastFeedbackIndex(fs, drawId, pid) == LastFeedbackIndex(init, drawId, pid);
      assert forall k :: 0 <= k < |init| ==> init[k] == fs[k];
    }
  }

  /** The last feedback is unique. */
  lemma LastFeedbackUnique(fs: seq<Feedback>, k: nat, drawId: int, pid: int)
    requires k < |fs| && IsLastFeedback(fs, k, drawId, pid)
    ensures LastFeedbackIndex(fs, drawId, pid) == Some(k)
  {
  }

  /** The four feedback cells of a slot: success, skip reason, rating, comment. */
  function FeedbackCells(fb: Option<Feedback>): seq<string> {
    match fb
    case None => ["", "", "", ""]
    case Some(f) => [YesNo(f.success), OrEmpty(f.skipReason), YesNo(f.rating), OrEmpty(f.comment)]
  }

  function SlotCells(slot: Option<Participant>, fbMap: map<int, Feedback>): seq<string> {
    match slot
    case None => ["", "", "", ""]
    case Some(p) => FeedbackCells(if p.id in fbMap then Some(fbMap[p.id]) else None)
  }

  /** The feedback cells of a run of slots, slot after slot. */
  function CellsOf(slots: seq<Option<Participant>>, fbMap: map<int, Feedback>): seq<string>
    decreases |slots|
  {
    if slots == [] then []
    else CellsOf(slots[..|slots| - 1], fbMap) + SlotCells(slots[|slots| - 1], fbMap)
  }

  /** The row of one pair of one draw. */
  function PairRow(draw: Draw, pair: Pair, ps: seq<Participant>, fs: seq<Feedback>, fmt: Day -> string): seq<string> {
    var slots := Slots(pair, ps);
    [fmt(draw.drawDate), Name(slots[0]), Name(slots[1]), Name(slots[2])]
      + CellsOf(slots, FeedbackMap(fs, draw.id))
  }

  /** The pairs of a draw, in stored order. */
  function PairsOfDraw(pairs: seq<Pair>, drawId: int): (r: seq<Pair>)
    ensures |r| <= |pairs|
  {
    if pairs == [] then []
    else if pairs[0].drawId == drawId then [pairs[0]] + PairsOfDraw(pairs[1..], drawId)
    else PairsOfDraw(pairs[1..], drawId)
  }

  /** A draw's pairs are exactly the stored pairs that refer to it. */
  lemma {:induction false} PairsOfDrawMembers(pairs: seq<Pair>, drawId: int)
    ensures forall p :: p in PairsOfDraw(pairs, drawId) <==> p in pairs && p.drawId == drawId
    decreases |pairs|
  {
    if pairs != [] {
      PairsOfDrawMembers(pairs[1..], drawId);
      assert pairs == [pairs[0]] + pairs[1..];
    }
  }

  /** The rows of a draw's pairs, each built by `rowOf`. */
  function RowsOfPairs<R>(draw: Draw, dps: seq<Pair>, rowOf: (Draw, Pair) -> R): seq<R>
    decreases |dps|
  {
    if dps == [] then []
    else RowsOfPairs(draw, dps[..|dps| - 1], rowOf) + [rowOf(draw, dps[|dps| - 1])]
  }

  /** Groups of rows, one group after the other. */
  function Flatten<T>(gs: seq<seq<T>>): seq<T>
    decreases |gs|
  {
    if gs == [] then [] else Flatten(gs[..|gs| - 1]) + gs[|gs| - 1]
  }

  /** One group of rows per draw: the rows of that draw's pairs. */
  function DrawGroups<R>(ds: seq<Draw>, pairs: seq<Pair>, rowOf: (Draw, Pair) -> R): (gs: seq<seq<R>>)
    ensures |gs| == |ds|
  {
    seq(|ds|, i requires 0 <= i < |ds| => RowsOfPairs(ds[i], PairsOfDraw(pairs, ds[i].id), rowOf))
  }

  /** The rows of the given draws, draw after draw, each draw's pairs in stored order. */
  function RowsOfDraws<R>(ds: seq<Draw>, pairs: seq<Pair>, rowOf: (Draw, Pair) -> R): seq<R> {
    Flatten(DrawGroups(ds, pairs, rowOf))
  }

  /** The row builder of the sheet. */
  function RowBuilder(ps: seq<Participant>, fs: seq<Feedback>, fmt: Day -> string): (Draw, Pair) -> seq<string> {
    (d: Draw, p: Pair) => PairRow(d, p, ps, fs, fmt)
  }

  /** The whole sheet: the header, then the rows of the draws in the given order. */
  function ReportTable(ps: seq<Participant>, ds: seq<Draw>, pairs: seq<Pair>, fs: seq<Feedback>, fmt: Day -> string): seq<seq<string>> {
    [Headers()] + RowsOfDraws(ds, pairs, RowBuilder(ps, fs, fmt))
  }

  /** Number of stored pairs over the given draws. */
  function PairCount(ds: seq<Draw>, pairs: seq<Pair>): nat
    decreases |ds|
  {
    if ds == [] then 0
    else PairCount(ds[..|ds| - 1], pairs) + |PairsOfDraw(pairs, ds[|ds| - 1].id)|
  }

  predicate SortedByDate(ds: seq<Draw>) {
    forall a, b :: 0 <= a < b < |ds| ==> ds[a].drawDate <= ds[b].drawDate
  }

  // ---------------------------------------------------------------------
  // Properties of the rows

  lemma CellsOfThree(slots: seq<Option<Participant>>, fbMap: map<int, Feedback>)
    requires |slots| == 3
    ensures CellsOf(slots, fbMap) == SlotCells(slots[0], fbMap) + SlotCells(slots[1], fbMap) + SlotCells(slots[2], fbMap)
  {
    var s1, s2 := slots[..1], slots[..2];
    assert s1[..0] == [] && s1[0] == slots[0];
    assert CellsOf(s1, fbMap) == SlotCells(slots[0], fbMap);
    assert s2[..1] == s1 && s2[1] == slots[1];
    assert CellsOf(s2, fbMap) == CellsOf(s1, fbMap) + SlotCells(slots[1], fbMap);
    assert slots[..2] == s2;
  }

  /** The slot cells: empty for an empty slot or a participant without
      feedback in this draw, otherwise the cells of their last feedback. */
  lemma SlotCellsMeaning(slot: Option<Participant>, fs: seq<Feedback>, drawId: int)
    ensures |SlotCells(slot, FeedbackMap(fs, drawId))| == 4
    ensures (slot.None? || forall k :: 0 <= k < |fs| ==> !(fs[k].drawId == drawId && fs[k].participantId == slot.value.id))
      ==> SlotCells(slot, FeedbackMap(fs, drawId)) == ["", "", "", ""]
    ensures forall k :: slot.Some? && 0 <= k < |fs| && IsLastFeedback(fs, k, drawId, slot.value.id) ==>
      SlotCells(slot, FeedbackMap(fs, drawId)) ==
        [YesNo(fs[k].success), OrEmpty(fs[k].skipReason), YesNo(fs[k].rating), OrEmpty(fs[k].comment)]
  {
    FeedbackMapMeaning(fs, drawId);
    if slot.Some? {
      forall k | 0 <= k < |fs| && IsLastFeedback(fs, k, drawId, slot.value.id)
        ensures LastFeedbackIndex(fs, drawId, slot.value.id) == Some(k)
      {
        LastFeedbackUnique(fs, k, drawId, slot.value.id);
      }
    }
  }

  lemma SlotCellsWidth(slot: Option<Participant>, fbMap: map<int, Feedback>)
    ensures |SlotCells(slot, fbMap)| == 4
  {
  }

  /** A row of four runs of four cells: each run is found at its place. */
  lemma Quarters<T>(head: seq<T>, c0: seq<T>, c1: seq<T>, c2: seq<T>)
    requires |head| == |c0| == |c1| == |c2| == 4
    ensures var row := head + c0 + c1 + c2;
      && |row| == 16
      && row[..4] == head && row[4..8] == c0 && row[8..12] == c1 && row[12..16] == c2
  {
    var row := head + c0 + c1 + c2;
    assert row[..4] == head;
    assert row[4..8] == c0;
    assert row[8..12] == c1;
    assert row[12..16] == c2;
  }

  /** The layout of a pair's row: 16 cells, as many as the header has; the
      date; the three names, the third empty when there is no third member;
      then four feedback cells per slot. */
  lemma PairRowLayout(draw: Draw, pair: Pair, ps: seq<Participant>, fs: seq<Feedback>, fmt: Day -> string)
    ensures var row := PairRow(draw, pair, ps, fs, fmt);
      && |row| == 16
      && row[0] == fmt(draw.drawDate)
      && row[1] == Name(FindParticipant(ps, pair.participant1Id))
      && row[2] == Name(FindParticipant(ps, pair.participant2Id))
      && (pair.participant3Id.None? ==> row[3] == "" && row[12..16] == ["", "", "", ""])
      && (pair.participant3Id.Some? ==> row[3] == Name(FindParticipant(ps, pair.participant3Id.value)))
      && row[4..8] == SlotCells(Slots(pair, ps)[0], FeedbackMap(fs, draw.id))
      && row[8..12] == SlotCells(Slots(pair, ps)[1], FeedbackMap(fs, draw.id))
      && row[12..16] == SlotCells(Slots(pair, ps)[2], FeedbackMap(fs, draw.id))
  {
    var slots := Slots(pair, ps);
    var m := FeedbackMap(fs, draw.id);
    var head := [fmt(draw.drawDate), Name(slots[0]), Name(slots[1]), Name(slots[2])];
    var c0, c1, c2 := SlotCells(slots[0], m), SlotCells(slots[1], m), SlotCells(slots[2], m);
    SlotCellsWidth(slots[0], m);
    SlotCellsWidth(slots[1], m);
    SlotCellsWidth(slots[2], m);
    PairRowParts(draw, pair, ps, fs, fmt);
    Quarters(head, c0, c1, c2);
    var row := PairRow(draw, pair, ps, fs, fmt);
    assert row[..4] == head;
    assert row[0] == head[0] && row[1] == head[1] && row[2] == head[2] && row[3] == head[3];
  }

  /** A pair's row is the date and the three names, then the cells of each slot. */
  lemma PairRowParts(draw: Draw, pair: Pair, ps: seq<Participant>, fs: seq<Feedback>, fmt: Day -> string)
    ensures var slots, m := Slots(pair, ps), FeedbackMap(fs, draw.id);
      PairRow(draw, pair, ps, fs, fmt) ==
        [fmt(draw.drawDate), Name(slots[0]), Name(slots[1]), Name(slots[2])]
          + SlotCells(slots[0], m) + SlotCells(slots[1], m) + SlotCells(slots[2], m)
  {
    var slots, m := Slots(pair, ps), FeedbackMap(fs, draw.id);
    var head := [fmt(draw.drawDate), Name(slots[0]), Name(slots[1]), Name(slots[2])];
    var c0, c1, c2 := SlotCells(slots[0], m), SlotCells(slots[1], m), SlotCells(slots[2], m);
    CellsOfThree(slots, m);
    ConcatAssoc(head + c0, c1, c2);
    ConcatAssoc(head, c0, c1 + c2);
  }

  lemma {:induction false} RowsOfPairsFacts<R>(draw: Draw, dps: seq<Pair>, rowOf: (Draw, Pair) -> R)
    ensures var rows := RowsOfPairs(draw, dps, rowOf);
      && |rows| == |dps|
      && forall b :: 0 <= b < |dps| ==> rows[b] == rowOf(draw, dps[b])
    decreases |dps|
  {
    if dps != [] {
      var init := dps[..|dps| - 1];
      RowsOfPairsFacts(draw, init, rowOf);
      forall b | 0 <= b < |init| ensures init[b] == dps[b] { }
    }
  }

  lemma {:induction false} RowsOfDrawsCount<R>(ds: seq<Draw>, pairs: seq<Pair>, rowOf: (Draw, Pair) -> R)
    ensures |RowsOfDraws(ds, pairs, rowOf)| == PairCount(ds, pairs)
    decreases |ds|
  {
    if ds != [] {
      var last := ds[|ds| - 1];
      RowsOfDrawsSplit(ds, pairs, rowOf);
      RowsOfDrawsCount(ds[..|ds| - 1], pairs, rowOf);
      RowsOfPairsFacts(last, PairsOfDraw(pairs, last.id), rowOf);
    }
  }

  /** The rows of the draws are those of all draws but the last, then the
      rows of the last draw's pairs. */
  lemma RowsOfDrawsSplit<R>(ds: seq<Draw>, pairs: seq<Pair>, rowOf: (Draw, Pair) -> R)
    requires ds != []
    ensures RowsOfDraws(ds, pairs, rowOf) ==
      RowsOfDraws(ds[..|ds| - 1], pairs, rowOf) + RowsOfPairs(ds[|ds| - 1], PairsOfDraw(pairs, ds[|ds| - 1].id), rowOf)
  {
    var n := |ds| - 1;
    assert DrawGroups(ds, pairs, rowOf)[..n] == DrawGroups(ds[..n], pairs, rowOf);
  }

  /** Row `b` of group `a` follows the rows of the groups before it. */
  lemma {:induction false} FlattenAt<T>(gs: seq<seq<T>>, a: nat, b: nat)
    requires a < |gs| && b < |gs[a]|
    ensures |Flatten(gs[..a])| + b < |Flatten(gs)|
    ensures Flatten(gs)[|Flatten(gs[..a])| + b] == gs[a][b]
    decreases |gs|
  {
    var n := |gs| - 1;
    if a < n {
      assert gs[..n][..a] == gs[..a];
      FlattenAt(gs[..n], a, b);
    } else {
      assert gs[..n] == gs[..a];
    }
  }

  lemma RowsOfPairsAt<R>(draw: Draw, dps: seq<Pair>, rowOf: (Draw, Pair) -> R, b: nat)
    requires b < |dps|
    ensures b < |RowsOfPairs(draw, dps, rowOf)| && RowsOfPairs(draw, dps, rowOf)[b] == rowOf(draw, dps[b])
  {
    RowsOfPairsFacts(draw, dps, rowOf);
  }

  lemma {:induction false} RowsWidth(ds: seq<Draw>, pairs: seq<Pair>, rowOf: (Draw, Pair) -> seq<string>, width: nat)
    requires forall d, p :: |rowOf(d, p)| == width
    ensures forall r :: r in RowsOfDraws(ds, pairs, rowOf) ==> |r| == width
    decreases |ds|
  {
    if ds != [] {
      var last := ds[|ds| - 1];
      RowsOfDrawsSplit(ds, pairs, rowOf);
      RowsWidth(ds[..|ds| - 1], pairs, rowOf, width);
      RowsOfPairsFacts(last, PairsOfDraw(pairs, last.id), rowOf);
    }
  }

  /** The sheet has the header first, then exactly one row per stored pair
      of the given draws, and every row has the header's 16 cells. */
  lemma ReportWidth(ps: seq<Participant>, ds: seq<Draw>, pairs: seq<Pair>, fs: seq<Feedback>, fmt: Day -> string)
    ensures var table := ReportTable(ps, ds, pairs, fs, fmt);
      && table[0] == Headers()
      && |table| == 1 + PairCount(ds, pairs)
      && forall r :: 0 <= r < |table| ==> |table[r]| == 16
  {
    var rowOf := RowBuilder(ps, fs, fmt);
    var rows := RowsOfDraws(ds, pairs, rowOf);
    var table := ReportTable(ps, ds, pairs, fs, fmt);
    forall d, p ensures |rowOf(d, p)| == 16 {
      PairRowLayout(d, p, ps, fs, fmt);
    }
    RowsWidth(ds, pairs, rowOf, 16);
    RowsOfDrawsCount(ds, pairs, rowOf);
    forall r | 0 < r < |table| ensures |table[r]| == 16 {
      assert table[r] == rows[r - 1];
    }
  }

  /** The row of the `b`-th pair of the `a`-th draw is that pair's row,
      placed after the header and the rows of every earlier draw. */
  lemma ReportRowOfPair(ps: seq<Participant>, ds: seq<Draw>, pairs: seq<Pair>, fs: seq<Feedback>, fmt: Day -> string, a: nat, b: nat)
    requires a < |ds| && b < |PairsOfDraw(pairs, ds[a].id)|
    ensures var table, k := ReportTable(ps, ds, pairs, fs, fmt), PairCount(ds[..a], pairs) + b;
      && 1 + k < |table|
      && table[1 + k] == PairRow(ds[a], PairsOfDraw(pairs, ds[a].id)[b], ps, fs, fmt)
  {
    TableRowOfPair(Headers(), ds, pairs, RowBuilder(ps, fs, fmt), a, b);
    RowBuilderApplies(ps, fs, fmt, ds[a], PairsOfDraw(pairs, ds[a].id)[b]);
  }

  /** Behind a header row, the row of the `b`-th pair of the `a`-th draw
      follows the header and one row per pair of every earlier draw. */
  lemma TableRowOfPair<R>(header: R, ds: seq<Draw>, pairs: seq<Pair>, rowOf: (Draw, Pair) -> R, a: nat, b: nat)
    requires a < |ds| && b < |PairsOfDraw(pairs, ds[a].id)|
    ensures var table, k := [header] + RowsOfDraws(ds, pairs, rowOf), PairCount(ds[..a], pairs) + b;
      && 1 + k < |table|
      && table[1 + k] == rowOf(ds[a], PairsOfDraw(pairs, ds[a].id)[b])
  {
    var gs := DrawGroups(ds, pairs, rowOf);
    var dps := PairsOfDraw(pairs, ds[a].id);
    var k := PairCount(ds[..a], pairs) + b;
    assert |Flatten(gs[..a])| == PairCount(ds[..a], pairs) by {
      assert gs[..a] == DrawGroups(ds[..a], pairs, rowOf);
      RowsOfDrawsCount(ds[..a], pairs, rowOf);
    }
    assert b < |gs[a]| && gs[a][b] == rowOf(ds[a], dps[b]) by {
      RowsOfPairsAt(ds[a], dps, rowOf, b);
    }
    FlattenAtHeader(header, gs, a, b, k);
  }

  /** Behind a header, row `b` of group `a` follows the header and the rows
      of the groups before it. */
  lemma FlattenAtHeader<T>(header: T, gs: seq<seq<T>>, a: nat, b: nat, k: nat)
    requires a < |gs| && b < |gs[a]| && k == |Flatten(gs[..a])| + b
    ensures 1 + k < |[header] + Flatten(gs)| && ([header] + Flatten(gs))[1 + k] == gs[a][b]
  {
    FlattenAt(gs, a, b);
  }

  lemma RowBuilderApplies(ps: seq<Participant>, fs: seq<Feedback>, fmt: Day -> string, d: Draw, p: Pair)
    ensures RowBuilder(ps, fs, fmt)(d, p) == PairRow(d, p, ps, fs, fmt)
  {
  }

  lemma CellsOfExtend(slots: seq<Option<Participant>>, t: nat, fbMap: map<int, Feedback>)
    requires t < |slots|
    ensures CellsOf(slots[..t + 1], fbMap) == CellsOf(slots[..t], fbMap) + SlotCells(slots[t], fbMap)
  {
    assert slots[..t + 1][..t] == slots[..t];
  }

  lemma RowsOfPairsExtend<R>(draw: Draw, dps: seq<Pair>, b: nat, rowOf: (Draw, Pair) -> R)
    requires b < |dps|
    ensures RowsOfPairs(draw, dps[..b + 1], rowOf) == RowsOfPairs(draw, dps[..b], rowOf) + [rowOf(draw, dps[b])]
  {
    assert dps[..b + 1][..b] == dps[..b];
  }

  lemma RowsOfDrawsExtend<R>(ds: seq<Draw>, a: nat, pairs: seq<Pair>, rowOf: (Draw, Pair) -> R)
    requires a < |ds|
    ensures RowsOfDraws(ds[..a + 1], pairs, rowOf) ==
      RowsOfDraws(ds[..a], pairs, rowOf) + RowsOfPairs(ds[a], PairsOfDraw(pairs, ds[a].id), rowOf)
  {
    RowsOfDrawsSplit(ds[..a + 1], pairs, rowOf);
    assert ds[..a + 1][..a] == ds[..a];
  }

  /** One pair's row, built cell by cell: the date, the three names, then
      the feedback cells of each slot in turn. */
  method BuildRow(draw: Draw, pair: Pair, ps: seq<Participant>, fs: seq<Feedback>, fmt: Day -> string) returns (row: seq<string>)
    ensures row == PairRow(draw, pair, ps, fs, fmt)
  {
    var participants := Slots(pair, ps);
    var feedbackMap := FeedbackMap(fs, draw.id);
    ghost var head := [fmt(draw.drawDate), Name(participants[0]), Name(participants[1]), Name(participants[2])];
    row := [fmt(draw.drawDate), Name(participants[0]), Name(participants[1]), Name(participants[2])];
    var t := 0;
    while t < 3
      invariant 0 <= t <= 3
      invariant row == head + CellsOf(participants[..t], feedbackMap)
    {
      ghost var rowBefore := row;
      match participants[t] {
        case Some(p) =>
          if p.id in feedbackMap {
            var fb := feedbackMap[p.id];
            row := row + [YesNo(fb.success), OrEmpty(fb.skipReason), YesNo(fb.rating), OrEmpty(fb.comment)];
          } else {
            row := row + ["", "", "", ""];
          }
        case None =>
          row := row + ["", "", "", ""];
      }
      assert row == rowBefore + SlotCells(participants[t], feedbackMap);
      CellsOfExtend(participants, t, feedbackMap);
      ConcatAssoc(head, CellsOf(participants[..t], feedbackMap), SlotCells(participants[t], feedbackMap));
      t := t + 1;
    }
    assert participants[..3] == participants;
  }

  /** The rows of one draw's pairs, pair after pair. */
  method DrawRows(draw: Draw, pairs: seq<Pair>, ps: seq<Participant>, fs: seq<Feedback>, fmt: Day -> string) returns (rows: seq<seq<string>>)
    ensures rows == RowsOfPairs(draw, PairsOfDraw(pairs, draw.id), RowBuilder(ps, fs, fmt))
  {
    ghost var rowOf := RowBuilder(ps, fs, fmt);
    var dps := PairsOfDraw(pairs, draw.id);
    rows := [];
    var b := 0;
    while b < |dps|
      invariant 0 <= b <= |dps|
      invariant rows == RowsOfPairs(draw, dps[..b], rowOf)
    {
      var row := BuildRow(draw, dps[b], ps, fs, fmt);
      assert row == rowOf(draw, dps[b]);
      RowsOfPairsExtend(draw, dps, b, rowOf);
      rows := rows + [row];
      b := b + 1;
    }
    assert dps[..b] == dps;
  }

  /** `generate_report_file` without the workbook: the header, then for each
      draw in date order, the rows of its pairs. */
  method GenerateReport(s: Session, drawsByDate: seq<Draw>, fmt: Day -> string) returns (rows: seq<seq<string>>)
    requires multiset(drawsByDate) == multiset(s.draws) && SortedByDate(drawsByDate)
    ensures rows == ReportTable(s.participants, drawsByDate, s.pairs, s.feedbacks, fmt)
  {
    var ps, pairs, fs := s.participants, s.pairs, s.feedbacks;
    ghost var rowOf := RowBuilder(ps, fs, fmt);
    rows := [Headers()];
    var a := 0;
    while a < |drawsByDate|
      invariant 0 <= a <= |drawsByDate|
      invariant rows == [Headers()] + RowsOfDraws(drawsByDate[..a], pairs, rowOf)
    {
      var drawRows := DrawRows(drawsByDate[a], pairs, ps, fs, fmt);
      RowsOfDrawsExtend(drawsByDate, a, pairs, rowOf);
      ConcatAssoc([Headers()], RowsOfDraws(drawsByDate[..a], pairs, rowOf), drawRows);
      rows := rows + drawRows;
      a := a + 1;
    }
    assert drawsByDate[..a] == drawsByDate;
  }
}
