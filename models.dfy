/** Records of the random-coffee store (users/models.py) and the store itself.

    Calendar dates are day numbers counted from 1970-01-01; a table is a
    sequence of records in storage order, each record keyed by an integer id. */
module Models {

  /** A nullable column. */
  datatype Option<T> = None | Some(value: T)

  /** A calendar date, as the number of days since 1970-01-01. */
  type Day = int

  datatype Cycle = Cycle(id: int, startDate: Day)

  /** A participant row. The defaults are the column defaults of the table;
      `addedAt` defaults to the current time in the source, so it is given. */
  datatype Participant = Participant(
    id: int,
    tgId: string,
    name: string,
    addedAt: int,
    admin: bool := false,
    frequencyIndividual: int := 1,
    active: bool := true,
    excludeStart: Option<Day> := None,
    excludeEnd: Option<Day> := None)

  datatype Draw = Draw(id: int, drawDate: Day, cycleId: Option<int>)

  /** Two participant references and an optional third one. */
  datatype Pair = Pair(
    id: int,
    drawId: int,
    participant1Id: int,
    participant2Id: int,
    participant3Id: Option<int> := None)

  datatype Settings = Settings(id: int, dayOfWeek: int, frequencyInWeeks: int)

  datatype Feedback = Feedback(
    id: int,
    drawId: int,
    participantId: int,
    success: Option<bool>,
    rating: Option<bool>,
    comment: Option<string>,
    skipReason: Option<string>)

  /** A participant as first stored: every column not given takes its default. */
  function NewParticipant(id: int, tgId: string, name: string, addedAt: int): (p: Participant)
    ensures p.id == id && p.tgId == tgId && p.name == name && p.addedAt == addedAt
    ensures !p.admin && p.active && p.frequencyIndividual == 1
    ensures p.excludeStart == None && p.excludeEnd == None
    ensures forall d :: IsAvailable(p, d)
  {
    Participant(id, tgId, name, addedAt)
  }

  /** Whether a day lies in a participant's exclusion window: the closed
      range between the two bounds, which counts only when both are set. */
  predicate Excluded(p: Participant, d: Day) {
    match (p.excludeStart, p.excludeEnd)
    case (Some(start), Some(end)) => start <= d <= end
    case _ => false
  }

  /** `Participant.is_available`. */
  function IsAvailable(p: Participant, checkDate: Day): (available: bool)
    ensures available <==> p.active && !Excluded(p, checkDate)
  {
    if !p.active then false
    else if p.excludeStart.Some? && p.excludeEnd.Some? then
      !(p.excludeStart.value <= checkDate <= p.excludeEnd.value)
    else true
  }

  /** Both bounds of a set window are excluded days; the days just outside are not. */
  lemma WindowBoundsInclusive(p: Participant, start: Day, end: Day)
    requires p.active && p.excludeStart == Some(start) && p.excludeEnd == Some(end)
    requires start <= end
    ensures !IsAvailable(p, start) && !IsAvailable(p, end)
    ensures IsAvailable(p, start - 1) && IsAvailable(p, end + 1)
  {
  }

  /** A window whose start lies after its end excludes nothing. */
  lemma InvertedWindowExcludesNothing(p: Participant, d: Day)
    requires p.active && p.excludeStart.Some? && p.excludeEnd.Some?
    requires p.excludeEnd.value < p.excludeStart.value
    ensures IsAvailable(p, d)
  {
  }

  // ---------------------------------------------------------------------
  // Ids

  predicate Distinct(s: seq<int>) {
    forall a, b :: 0 <= a < b < |s| ==> s[a] != s[b]
  }

  /** The id the store gives the next row of a table: one more than the
      largest id, or 1 in an empty table. */
  function NextRowId(ids: seq<int>): (r: int)
    ensures forall k :: 0 <= k < |ids| ==> ids[k] < r
    ensures ids == [] ==> r == 1
    ensures ids != [] ==> exists k :: 0 <= k < |ids| && ids[k] == r - 1
    decreases |ids|
  {
    if ids == [] then 1
    else if |ids| == 1 then ids[0] + 1
    else
      var rest := NextRowId(ids[1..]);
      if ids[0] + 1 < rest then rest else ids[0] + 1
  }

  /** Concatenation regrouped. */
  lemma ConcatAssoc<T>(a: seq<T>, b: seq<T>, c: seq<T>)
    ensures a + (b + c) == (a + b) + c
  {
  }

  function ParticipantIds(ps: seq<Participant>): seq<int> {
    seq(|ps|, k requires 0 <= k < |ps| => ps[k].id)
  }

  function DrawIds(ds: seq<Draw>): seq<int> {
    seq(|ds|, k requires 0 <= k < |ds| => ds[k].id)
  }

  function PairIds(ps: seq<Pair>): seq<int> {
    seq(|ps|, k requires 0 <= k < |ps| => ps[k].id)
  }

  function SettingsIds(rs: seq<Settings>): seq<int> {
    seq(|rs|, k requires 0 <= k < |rs| => rs[k].id)
  }

  /** The database session: every table as a sequence of rows. */
  class Session {
    var participants: seq<Participant>
    var draws: seq<Draw>
    var pairs: seq<Pair>
    var settings: seq<Settings>
    var feedbacks: seq<Feedback>

    /** Primary keys are unique in every table. */
    ghost predicate Valid()
      reads this
    {
      && Distinct(ParticipantIds(participants))
      && Distinct(DrawIds(draws))
      && Distinct(PairIds(pairs))
      && Distinct(SettingsIds(settings))
    }

    /** An empty database. */
    constructor ()
      ensures Valid()
      ensures participants == [] && draws == [] && pairs == [] && settings == [] && feedbacks == []
    {
      participants, draws, pairs, settings, feedbacks := [], [], [], [], [];
    }
  }
}
