/** What makes a card more useful than another: the order of the eligible tasks, read off rooms, history and cards. */
module Ranking {
  import opened Options
  import opened Sequences
  import opened Tasks
  import opened Planner
  import opened PlanProofs

  // ----- the order is one of scores -----

  /** Of two eligible tasks the one with the higher score stands first, and with equal scores the one listed first in
      the bank. */
  lemma OrderExactly(input: PlanInput, a: Task, b: Task)
    requires UniqueIds(input.tasks) && a in EligibleTasks(input) && b in EligibleTasks(input) && a != b
    ensures Before(EligibleTasks(input), a, b) <==>
            || SelectionScore(a, input) > SelectionScore(b, input)
              || (SelectionScore(a, input) == SelectionScore(b, input) && Before(input.tasks, a, b))
  {
    EligibleTasksAreUnique(input);
    DistinctIsLinear(EligibleTasks(input), a, b);
    BeforeMeansNoLess(input, a, b);
    BeforeMeansNoLess(input, b, a);
    if SelectionScore(a, input) == SelectionScore(b, input) {
      TiesKeepBankOrder(input, a, b);
    }
  }

  lemma BeforeMeansNoLess(input: PlanInput, a: Task, b: Task)
    ensures Before(EligibleTasks(input), a, b) ==> SelectionScore(a, input) >= SelectionScore(b, input)
  {
    var eligible := EligibleTasks(input);
    if i, j :| 0 <= i < j < |eligible| && eligible[i] == a && eligible[j] == b {
      EligibleAreRanked(input, i, j);
    }
  }

  lemma TiesKeepBankOrder(input: PlanInput, a: Task, b: Task)
    requires a in EligibleTasks(input) && b in EligibleTasks(input)
    requires SelectionScore(a, input) == SelectionScore(b, input)
    ensures Before(EligibleTasks(input), a, b) <==> Before(input.tasks, a, b)
  {
    var x, candidates := SelectionScore(a, input), Candidates(input);
    RankingKeepsTiesInOrder(input, x);
    EligibleMeansKept(input, a);
    EligibleMeansKept(input, b);
    FilterKeepsOrder(EligibleTasks(input), ScoresExactly(input, x), a, b);
    FilterKeepsOrder(Kept(candidates), ScoresExactly(input, x), a, b);
    FilterKeepsOrder(candidates, (t: Task) => !IsSuperseded(t.id, candidates), a, b);
    FilterKeepsOrder(input.tasks, (t: Task) => IsCandidate(t, input), a, b);
  }

  // ----- what a score is made of -----

  /** Everything a card is judged by. */
  datatype Merits = Merits(weight: real, preference: int, freshness: real, minutes: Minutes, deep: bool,
                           kickstart: bool, boost: real)

  function InMode(mode: Mode, daily: int, weekend: int, guests: int, declutter: int): int {
    if mode == Daily then daily
    else if mode == Weekend then weekend
    else if mode == Guests then guests
    else declutter
  }

  /** How much a mode cares for a category, in hundredths: one row a category, one column a mode. */
  function Preference(mode: Mode, category: Category): int {
    match category
    case Visible => InMode(mode, 115, 100, 220, 40)
    case Hygiene => InMode(mode, 130, 115, 180, 20)
    case Floor => InMode(mode, 100, 110, 120, 20)
    case Odor => InMode(mode, 110, 100, 50, 20)
    case Laundry => InMode(mode, 100, 100, 0, 40)
    case Declutter => InMode(mode, 50, 80, 10, 250)
  }

  /** How fresh the room is in the respect the category tends to. */
  function FreshnessFor(room: Room, category: Category): real {
    if category == Hygiene then room.freshness.hygiene
    else if category == Floor then room.freshness.floor
    else if category == Odor then room.freshness.odor
    else room.freshness.visible
  }

  /** x is to be done at once on first use and was never done, and the card t is it or includes it. */
  ghost predicate IsKickstartOf(x: Task, t: Task, input: PlanInput) {
    && x.firstUseDueImmediately && (x.id == t.id || x.id in t.includedTaskIds)
    && forall c | c in input.completionHistory :: c.taskId != x.id
  }

  ghost predicate OpensKickstart(t: Task, input: PlanInput) {
    exists x | x in input.tasks :: IsKickstartOf(x, t, input)
  }

  ghost function MeritsOf(t: Task, room: Room, input: PlanInput): Merits {
    Merits(room.visibilityWeight, Preference(input.mode, t.category), FreshnessFor(room, t.category),
           t.durationMinutes, t.depth == Some(Deep), OpensKickstart(t, input),
           if t.priorityBoost.Some? then t.priorityBoost.value else 1.0)
  }

  /** Weight, preference, lack of freshness and boosts count for a card, each minute against it. */
  function Worth(m: Merits, availableMinutes: int): real {
    m.weight * m.preference as real / 100.0 * (2.0 - m.freshness)
    * (if m.deep && availableMinutes >= 45 then 30.0 else 1.0) * (if m.kickstart then 16.0 else 1.0) * m.boost
    / m.minutes as real
  }

  /** The room a task is in, if the bank's rooms have it. */
  ghost predicate IsIn(t: Task, room: Room, input: PlanInput) {
    RoomById(input.rooms, t.roomId) == Some(room)
  }

  lemma KickstartsAgree(t: Task, input: PlanInput)
    requires UniqueIds(input.tasks)
    ensures OpensKickstart(t, input)
            <==> exists id | id in [t.id] + t.includedTaskIds :: IsUnfinishedKickstart(id, input)
  {
    var ids := [t.id] + t.includedTaskIds;
    if x :| x in input.tasks && IsKickstartOf(x, t, input) {
      FindsItself(input.tasks, x);
      assert x.id in ids && IsUnfinishedKickstart(x.id, input);
    }
  }

  lemma WeighingAgrees(task: Task, mode: Mode, room: Room)
    ensures CategoryWeight(mode, task.category) == Preference(mode, task.category) as real / 100.0
    ensures Score(task, mode, room)
            == room.visibilityWeight * (Preference(mode, task.category) as real / 100.0)
                * (2.0 - FreshnessFor(room, task.category)) / task.durationMinutes as real
  {
  }

  lemma DivideLast(x: real, m: real, y: real)
    requires m > 0.0
    ensures x / m * y == x * y / m
  {
    assert x / m * y * m == x * y;
  }

  lemma DivideAfterBoosts(x: real, m: real, d: real, k: real, b: real)
    requires m > 0.0
    ensures x / m * d * k * b == x * d * k * b / m
  {
    DivideLast(x, m, d);
    DivideLast(x * d, m, k);
    DivideLast(x * d * k, m, b);
  }

  lemma HundredthsFirst(w: real, p: real, f: real)
    ensures w * (p / 100.0) * f == w * p / 100.0 * f
  {
  }

  lemma ScoreWithBoosts(t: Task, room: Room, input: PlanInput)
    requires UniqueIds(input.tasks) && IsIn(t, room, input)
    ensures var m := MeritsOf(t, room, input);
            SelectionScore(t, input)
            == Score(t, input.mode, room) * (if m.deep && input.availableMinutes >= 45 then 30.0 else 1.0)
                * (if m.kickstart then 16.0 else 1.0) * m.boost
  {
    KickstartsAgree(t, input);
  }

  /** The score is the worth of the card's merits. */
  lemma ScoreIsWorth(t: Task, room: Room, input: PlanInput)
    requires UniqueIds(input.tasks) && IsIn(t, room, input)
    ensures SelectionScore(t, input) == Worth(MeritsOf(t, room, input), input.availableMinutes)
  {
    ScoreWithBoosts(t, room, input);
    WeighingAgrees(t, input.mode, room);
    WorthOfScore(MeritsOf(t, room, input), input.availableMinutes, Score(t, input.mode, room));
  }

  lemma WorthOfScore(m: Merits, availableMinutes: int, score: real)
    requires score == m.weight * (m.preference as real / 100.0) * (2.0 - m.freshness) / m.minutes as real
    ensures Worth(m, availableMinutes)
            == score * (if m.deep && availableMinutes >= 45 then 30.0 else 1.0) * (if m.kickstart then 16.0 else 1.0)
                * m.boost
  {
    HundredthsFirst(m.weight, m.preference as real, 2.0 - m.freshness);
    DivideAfterBoosts(m.weight * (m.preference as real / 100.0) * (2.0 - m.freshness), m.minutes as real,
        if m.deep && availableMinutes >= 45 then 30.0 else 1.0, if m.kickstart then 16.0 else 1.0, m.boost);
  }

  /** The order of the eligible tasks, by the merits of the cards alone. */
  lemma OrderByMerits(input: PlanInput, a: Task, inA: Room, b: Task, inB: Room)
    requires UniqueIds(input.tasks) && a in EligibleTasks(input) && b in EligibleTasks(input) && a != b
    requires IsIn(a, inA, input) && IsIn(b, inB, input)
    ensures var x, y := Worth(MeritsOf(a, inA, input), input.availableMinutes),
              Worth(MeritsOf(b, inB, input), input.availableMinutes);
            Before(EligibleTasks(input), a, b) <==> x > y || (x == y && Before(input.tasks, a, b))
  {
    OrderExactly(input, a, b);
    ScoreIsWorth(a, inA, input);
    ScoreIsWorth(b, inB, input);
  }

  // ----- one merit at a time -----

  /** The card is in a room that counts, in a category the mode wants, and not discouraged. */
  predicate Counts(m: Merits) {
    m.weight > 0.0 && m.preference > 0 && m.freshness < 2.0 && m.boost > 0.0
  }

  function DepthFactor(m: Merits, availableMinutes: int): real {
    if m.deep && availableMinutes >= 45 then 30.0 else 1.0
  }

  function KickstartFactor(m: Merits): real {
    if m.kickstart then 16.0 else 1.0
  }

  function Product(m: Merits, availableMinutes: int): real {
    m.weight * m.preference as real / 100.0 * (2.0 - m.freshness) * DepthFactor(m, availableMinutes)
    * KickstartFactor(m) * m.boost
  }

  lemma PositiveProduct(x: real, y: real)
    requires x > 0.0 && y > 0.0
    ensures x * y > 0.0
  {
  }

  lemma PositiveQuotient(x: real, y: real)
    requires x > 0.0 && y > 0.0
    ensures x / y > 0.0
  {
    assert x / y * y == x;
  }

  lemma ScaleOrder(k: real, x: real, y: real)
    requires k > 0.0 && x > y
    ensures k * x > k * y
  {
    PositiveProduct(k, x - y);
  }

  lemma QuotientOrder(x: real, y: real, m: real)
    requires x > y && m > 0.0
    ensures x / m > y / m
  {
    PositiveQuotient(x - y, m);
    assert x / m - y / m == (x - y) / m;
  }

  /** For equally long cards, all but one factor being equal and positive, the larger factor decides. */
  lemma FactorDecides(m: Merits, n: Merits, available: int, rest: real, x: real, y: real)
    requires m.minutes == n.minutes && rest > 0.0 && x > y
    requires Product(m, available) == rest * x && Product(n, available) == rest * y
    ensures Worth(m, available) > Worth(n, available)
  {
    ScaleOrder(rest, x, y);
    QuotientOrder(rest * x, rest * y, m.minutes as real);
  }

  lemma PositiveRest(a: real, b: real, c: real, d: real, e: real)
    requires a > 0.0 && b > 0.0 && c > 0.0 && d > 0.0 && e > 0.0
    ensures a * b * c * d * e > 0.0
  {
    PositiveProduct(a, b);
    PositiveProduct(a * b, c);
    PositiveProduct(a * b * c, d);
    PositiveProduct(a * b * c * d, e);
  }

  lemma LessFreshIsWorthMore(m: Merits, freshness: real, available: int)
    requires Counts(m) && m.freshness < freshness
    ensures Worth(m, available) > Worth(m.(freshness := freshness), available)
  {
    var n := m.(freshness := freshness);
    var rest := m.weight * (m.preference as real / 100.0) * DepthFactor(m, available) * KickstartFactor(m) * m.boost;
    PositiveRest(m.weight, m.preference as real / 100.0, DepthFactor(m, available), KickstartFactor(m), m.boost);
    FactorDecides(m, n, available, rest, 2.0 - m.freshness, 2.0 - freshness);
  }

  lemma HeavierIsWorthMore(m: Merits, weight: real, available: int)
    requires Counts(m) && m.weight > weight
    ensures Worth(m, available) > Worth(m.(weight := weight), available)
  {
    var rest := (m.preference as real / 100.0) * (2.0 - m.freshness) * DepthFactor(m, available) * KickstartFactor(m)
        * m.boost;
    PositiveRest(m.preference as real / 100.0, 2.0 - m.freshness, DepthFactor(m, available), KickstartFactor(m),
        m.boost);
    FactorDecides(m, m.(weight := weight), available, rest, m.weight, weight);
  }

  lemma PreferredIsWorthMore(m: Merits, preference: int, available: int)
    requires Counts(m) && m.preference > preference
    ensures Worth(m, available) > Worth(m.(preference := preference), available)
  {
    var rest := m.weight * (2.0 - m.freshness) * DepthFactor(m, available) * KickstartFactor(m) * m.boost;
    PositiveRest(m.weight, 2.0 - m.freshness, DepthFactor(m, available), KickstartFactor(m), m.boost);
    FactorDecides(m, m.(preference := preference), available, rest, m.preference as real / 100.0,
        preference as real / 100.0);
  }

  lemma DeepIsWorthMore(m: Merits, available: int)
    requires Counts(m) && m.deep && available >= 45
    ensures Worth(m, available) > Worth(m.(deep := false), available)
  {
    var rest := m.weight * (m.preference as real / 100.0) * (2.0 - m.freshness) * KickstartFactor(m) * m.boost;
    PositiveRest(m.weight, m.preference as real / 100.0, 2.0 - m.freshness, KickstartFactor(m), m.boost);
    FactorDecides(m, m.(deep := false), available, rest, 30.0, 1.0);
  }

  lemma KickstartIsWorthMore(m: Merits, available: int)
    requires Counts(m) && m.kickstart
    ensures Worth(m, available) > Worth(m.(kickstart := false), available)
  {
    var rest := m.weight * (m.preference as real / 100.0) * (2.0 - m.freshness) * DepthFactor(m, available) * m.boost;
    PositiveRest(m.weight, m.preference as real / 100.0, 2.0 - m.freshness, DepthFactor(m, available), m.boost);
    FactorDecides(m, m.(kickstart := false), available, rest, 16.0, 1.0);
  }

  lemma BoostedIsWorthMore(m: Merits, boost: real, available: int)
    requires Counts(m) && m.boost > boost
    ensures Worth(m, available) > Worth(m.(boost := boost), available)
  {
    var rest := m.weight * (m.preference as real / 100.0) * (2.0 - m.freshness) * DepthFactor(m, available)
        * KickstartFactor(m);
    PositiveRest(m.weight, m.preference as real / 100.0, 2.0 - m.freshness, DepthFactor(m, available),
        KickstartFactor(m));
    FactorDecides(m, m.(boost := boost), available, rest, m.boost, boost);
  }

  lemma ProductIsPositive(m: Merits, available: int)
    requires Counts(m)
    ensures Product(m, available) > 0.0
  {
    PositiveRest(m.weight, m.preference as real / 100.0, 2.0 - m.freshness, DepthFactor(m, available),
        KickstartFactor(m));
    PositiveProduct(m.weight * (m.preference as real / 100.0) * (2.0 - m.freshness) * DepthFactor(m, available)
        * KickstartFactor(m), m.boost);
  }

  lemma CountingIsWorthSomething(m: Merits, available: int)
    requires Counts(m)
    ensures Worth(m, available) > 0.0
  {
    ProductIsPositive(m, available);
    PositiveQuotient(Product(m, available), m.minutes as real);
  }

  lemma UnwantedIsWorthNothing(m: Merits, available: int)
    requires m.preference == 0
    ensures Worth(m, available) == 0.0
  {
    assert m.weight * m.preference as real == 0.0;
    assert Product(m, available) == 0.0;
    assert Worth(m, available) == 0.0 / m.minutes as real;
  }

  lemma DepthIsForLongSessions(m: Merits, available: int)
    requires available < 45
    ensures Worth(m, available) == Worth(m.(deep := false), available)
  {
  }

  lemma LongerDivisor(x: real, m: real, n: real)
    requires x > 0.0 && 0.0 < m < n
    ensures x / m > x / n
  {
    PositiveQuotient(x, n);
    ScaleOrder(x / n, n, m);
    QuotientOrder(x / n * n, x / n * m, m);
    assert x / n * n == x && x / n * m / m == x / n;
  }

  lemma ShorterIsWorthMore(m: Merits, minutes: Minutes, available: int)
    requires Counts(m) && m.minutes < minutes
    ensures Worth(m, available) > Worth(m.(minutes := minutes), available)
  {
    ProductIsPositive(m, available);
    LongerDivisor(Product(m, available), m.minutes as real, minutes as real);
  }

  // ----- the same, of eligible cards -----

  ghost predicate BothEligible(input: PlanInput, a: Task, inA: Room, b: Task, inB: Room) {
    && UniqueIds(input.tasks) && a in EligibleTasks(input) && b in EligibleTasks(input)
    && IsIn(a, inA, input) && IsIn(b, inB, input)
  }

  /** Of two cards alike in all else that count for anything, the one whose room is less fresh stands first. */
  lemma LessFreshRoomFirst(input: PlanInput, a: Task, inA: Room, b: Task, inB: Room)
    requires BothEligible(input, a, inA, b, inB) && Counts(MeritsOf(a, inA, input))
    requires FreshnessFor(inA, a.category) < FreshnessFor(inB, b.category)
    requires MeritsOf(b, inB, input) == MeritsOf(a, inA, input).(freshness := FreshnessFor(inB, b.category))
    ensures Before(EligibleTasks(input), a, b)
  {
    LessFreshIsWorthMore(MeritsOf(a, inA, input), FreshnessFor(inB, b.category), input.availableMinutes);
    OrderByMerits(input, a, inA, b, inB);
  }

  lemma MoreVisibleRoomFirst(input: PlanInput, a: Task, inA: Room, b: Task, inB: Room)
    requires BothEligible(input, a, inA, b, inB) && Counts(MeritsOf(a, inA, input))
    requires inA.visibilityWeight > inB.visibilityWeight
    requires MeritsOf(b, inB, input) == MeritsOf(a, inA, input).(weight := inB.visibilityWeight)
    ensures Before(EligibleTasks(input), a, b)
  {
    HeavierIsWorthMore(MeritsOf(a, inA, input), inB.visibilityWeight, input.availableMinutes);
    OrderByMerits(input, a, inA, b, inB);
  }

  lemma PreferredCategoryFirst(input: PlanInput, a: Task, inA: Room, b: Task, inB: Room)
    requires BothEligible(input, a, inA, b, inB) && Counts(MeritsOf(a, inA, input))
    requires Preference(input.mode, a.category) > Preference(input.mode, b.category)
    requires MeritsOf(b, inB, input) == MeritsOf(a, inA, input).(preference := Preference(input.mode, b.category))
    ensures Before(EligibleTasks(input), a, b)
  {
    PreferredIsWorthMore(MeritsOf(a, inA, input), Preference(input.mode, b.category), input.availableMinutes);
    OrderByMerits(input, a, inA, b, inB);
  }

  lemma ShorterTaskFirst(input: PlanInput, a: Task, inA: Room, b: Task, inB: Room)
    requires BothEligible(input, a, inA, b, inB) && Counts(MeritsOf(a, inA, input))
    requires a.durationMinutes < b.durationMinutes
    requires MeritsOf(b, inB, input) == MeritsOf(a, inA, input).(minutes := b.durationMinutes)
    ensures Before(EligibleTasks(input), a, b)
  {
    ShorterIsWorthMore(MeritsOf(a, inA, input), b.durationMinutes, input.availableMinutes);
    OrderByMerits(input, a, inA, b, inB);
  }

  lemma HigherBoostFirst(input: PlanInput, a: Task, inA: Room, b: Task, inB: Room)
    requires BothEligible(input, a, inA, b, inB) && Counts(MeritsOf(a, inA, input))
    requires MeritsOf(a, inA, input).boost > MeritsOf(b, inB, input).boost
    requires MeritsOf(b, inB, input) == MeritsOf(a, inA, input).(boost := MeritsOf(b, inB, input).boost)
    ensures Before(EligibleTasks(input), a, b)
  {
    BoostedIsWorthMore(MeritsOf(a, inA, input), MeritsOf(b, inB, input).boost, input.availableMinutes);
    OrderByMerits(input, a, inA, b, inB);
  }

  /** A deep card stands before its like in sessions of 45 minutes or more; in shorter ones depth does not count. */
  lemma DeepCardFirstExactly(input: PlanInput, a: Task, inA: Room, b: Task, inB: Room)
    requires BothEligible(input, a, inA, b, inB) && Counts(MeritsOf(a, inA, input))
    requires a.depth == Some(Deep) && b.depth != Some(Deep)
    requires MeritsOf(b, inB, input) == MeritsOf(a, inA, input).(deep := false)
    ensures Before(EligibleTasks(input), a, b) <==> input.availableMinutes >= 45 || Before(input.tasks, a, b)
  {
    if input.availableMinutes >= 45 {
      DeepIsWorthMore(MeritsOf(a, inA, input), input.availableMinutes);
    } else {
      DepthIsForLongSessions(MeritsOf(a, inA, input), input.availableMinutes);
    }
    OrderByMerits(input, a, inA, b, inB);
  }

  /** A card that opens first-use work nobody has done yet stands before its like. */
  lemma UnfinishedKickstartFirst(input: PlanInput, a: Task, inA: Room, b: Task, inB: Room)
    requires BothEligible(input, a, inA, b, inB) && Counts(MeritsOf(a, inA, input))
    requires OpensKickstart(a, input) && !OpensKickstart(b, input)
    requires MeritsOf(b, inB, input) == MeritsOf(a, inA, input).(kickstart := false)
    ensures Before(EligibleTasks(input), a, b)
  {
    KickstartIsWorthMore(MeritsOf(a, inA, input), input.availableMinutes);
    OrderByMerits(input, a, inA, b, inB);
  }

  /** Guests do not come to see the laundry: such a card stands after every card that counts, whatever its merits. */
  lemma LaundryLastForGuests(input: PlanInput, a: Task, inA: Room, b: Task, inB: Room)
    requires BothEligible(input, a, inA, b, inB) && Counts(MeritsOf(a, inA, input))
    requires input.mode == Guests && b.category == Laundry
    ensures Before(EligibleTasks(input), a, b)
  {
    CountingIsWorthSomething(MeritsOf(a, inA, input), input.availableMinutes);
    UnwantedIsWorthNothing(MeritsOf(b, inB, input), input.availableMinutes);
    OrderByMerits(input, a, inA, b, inB);
  }

  // ----- who gets a task -----

  /** The minutes by which a member may be ahead of the others and still get the task. */
  function HeadStart(m: Member, task: Task, rooms: seq<Room>): int {
    match RoomById(rooms, task.roomId)
    case Some(room) =>
      if !room.isPrivate then (if m.role == Adult then 2 else 0)
      else
        (if room.id in m.preferredRoomIds then 10 else 0) + (if m.role == Child && task.childFriendly then 5 else 0)
    case None => if m.role == Adult then 2 else 0
  }

  function Handicap(m: Member, task: Task, minutes: Loads, rooms: seq<Room>): int {
    Load(minutes, m.id) - HeadStart(m, task, rooms)
  }

  lemma {:induction false} RoomHasItsId(rooms: seq<Room>, id: string)
    ensures RoomById(rooms, id).Some? ==> RoomById(rooms, id).value.id == id && RoomById(rooms, id).value in rooms
    ensures RoomById(rooms, id).None? <==> forall r | r in rooms :: r.id != id
  {
    if rooms != [] {
      assert rooms == rooms[..|rooms| - 1] + [rooms[|rooms| - 1]];
      RoomHasItsId(rooms[..|rooms| - 1], id);
    }
  }

  lemma ScoreIsHandicap(m: Member, task: Task, minutes: Loads, rooms: seq<Room>)
    ensures MemberScore(m, task, minutes, rooms) == -Handicap(m, task, minutes, rooms)
  {
    RoomHasItsId(rooms, task.roomId);
  }

  /** The member is an adult or the task is for children too, and the session leaves time for it. */
  ghost predicate HasTimeFor(m: Member, task: Task, minutes: Loads, available: int) {
    (m.role == Adult || task.childFriendly) && Load(minutes, m.id) + task.durationMinutes <= available
  }

  /** The member at k gets the task exactly when they can take it and are, head starts considered, the least loaded of
      those who can, and the first listed of the least loaded. */
  lemma ChosenExactly(task: Task, members: seq<Member>, minutes: Loads, input: PlanInput, k: nat)
    requires UniqueMembers(members) && k < |members|
    ensures PickMember(task, members, minutes, input) == Some(members[k]) <==>
            && HasTimeFor(members[k], task, minutes, input.availableMinutes)
              && forall i | 0 <= i < |members| && i != k
                  && HasTimeFor(members[i], task, minutes, input.availableMinutes) ::
                   var mine, other := Handicap(members[k], task, minutes, input.rooms),
                       Handicap(members[i], task, minutes, input.rooms);
                   mine < other || (mine == other && k < i)
  {
    assert forall i | 0 <= i < |members| ::
        HasTimeFor(members[i], task, minutes, input.availableMinutes)
        <==> CanTake(members[i], task, minutes, input.availableMinutes);
    PickIsBest(task, members, minutes, input);
    if PickMember(task, members, minutes, input).Some? {
      var first := TiesGoToTheFirst(task, members, minutes, input);
      forall i | 0 <= i < |members|
        ensures MemberScore(members[i], task, minutes, input.rooms)
                == -Handicap(members[i], task, minutes, input.rooms)
      {
        ScoreIsHandicap(members[i], task, minutes, input.rooms);
      }
      assert k != first ==> members[k].id != members[first].id;
    }
  }

  // ----- what the order decides -----

  lemma {:induction false} EarlierAssignmentsStay(tasks: seq<Task>, i: nat, members: seq<Member>, input: PlanInput)
    requires i <= |tasks|
    ensures After(tasks[..i], members, input).assignments <= After(tasks, members, input).assignments
    decreases |tasks|
  {
    if i == |tasks| {
      assert tasks[..i] == tasks;
    } else {
      var front := tasks[..|tasks| - 1];
      EarlierAssignmentsStay(front, i, members, input);
      assert front[..i] == tasks[..i];
      var _, _ := Turn(tasks, members, input);
    }
  }

  lemma OdorAmongEarlier(tasks: seq<Task>, members: seq<Member>, input: PlanInput)
    requires UniqueIds(input.tasks) && forall t | t in tasks :: t in input.tasks
    requires After(tasks, members, input).odorTaskAssigned
    ensures exists a | a in After(tasks, members, input).assignments :: IsOdor(input.tasks, a)
  {
    OdorFlagIsTrue(tasks, members, input);
    var given := After(tasks, members, input).assignments;
    var i :| 0 <= i < |given| && IsOdor(input.tasks, given[i]);
    assert given[i] in given;
  }

  /** Nothing is left over for the sake of a less useful task: what the tasks placed before it were given takes up every
      admissible participant's time, or holds the plan's odour task already. */
  lemma LeftOverForBetterOnes(input: PlanInput, i: nat) returns (n: nat)
    requires Sane(input) && i < |EligibleTasks(input)|
    requires EligibleTasks(input)[i].id in PlanOf(input).unassignedTaskIds
    ensures n <= |PlanOf(input).assignments|
    ensures var t, given := EligibleTasks(input)[i], PlanOf(input).assignments[..n];
            && (forall a | a in given :: exists better | better in EligibleTasks(input)[..i] :: better.id == a.taskId)
            && ((t.category == Odor && exists a | a in given :: IsOdor(input.tasks, a))
                || forall m | m in Members(input) && (m.role == Adult || t.childFriendly) ::
                     MinutesOf(given, input.tasks, m.id) + t.durationMinutes > input.availableMinutes)
  {
    SanePlan(input);
    var eligible, members := EligibleTasks(input), Members(input);
    var before, t := eligible[..i], eligible[i];
    var given := After(before, members, input).assignments;
    n := |given|;
    EarlierAssignmentsStay(eligible, i, members, input);
    assert PlanOf(input).assignments[..n] == given;
    LedgerIsKept(before, members, input);
    forall a | a in given
      ensures exists better | better in before :: better.id == a.taskId
    {
      assert Gives(a, before, members);
    }
    assert t.id !in Final(input).assignedIds by { PlanPartitionsEligible(input); }
    LeftOverWasPassedOver(eligible, i, members, input);
    if t.category == Odor && After(before, members, input).odorTaskAssigned {
      OdorAmongEarlier(before, members, input);
    } else {
      forall m | m in members && Admissible(m, t)
        ensures MinutesOf(given, input.tasks, m.id) + t.durationMinutes > input.availableMinutes
      {
        LoadsAreMinutes(before, members, input, m);
      }
    }
  }

  lemma StartLoadsNobody(members: seq<Member>, id: string)
    ensures Load(Start(members).minutes, id) == 0
  {
  }

  /** The most useful card is assigned whenever anybody may do it. */
  lemma MostUsefulIsAssigned(input: PlanInput, m: Member)
    requires Sane(input) && EligibleTasks(input) != []
    requires m in Members(input) && (m.role == Adult || EligibleTasks(input)[0].childFriendly)
    ensures Has(PlanOf(input).assignments, EligibleTasks(input)[0].id)
  {
    SanePlan(input);
    var eligible, members := EligibleTasks(input), Members(input);
    var first := eligible[0];
    assert first in eligible && first.durationMinutes <= input.availableMinutes;
    StartLoadsNobody(members, m.id);
    assert CanTake(m, first, Start(members).minutes, input.availableMinutes);
    assert eligible[..0] == [] && After(eligible[..0], members, input) == Start(members);
    if first.id !in Final(input).assignedIds {
      LeftOverWasPassedOver(eligible, 0, members, input);
    }
  }

  lemma IdsKeepOrder(tasks: seq<Task>, a: Task, b: Task)
    requires UniqueIds(tasks) && a in tasks && b in tasks
    ensures Before(IdsOf(tasks), a.id, b.id) <==> Before(tasks, a, b)
  {
    var ids := IdsOf(tasks);
    if i, j :| 0 <= i < j < |tasks| && tasks[i] == a && tasks[j] == b {
      assert ids[i] == a.id && ids[j] == b.id;
    }
    if i, j :| 0 <= i < j < |ids| && ids[i] == a.id && ids[j] == b.id {
      FindsItself(tasks, tasks[i]);
      FindsItself(tasks, tasks[j]);
      FindsItself(tasks, a);
      FindsItself(tasks, b);
    }
  }

  /** What is left over is listed by usefulness, as it was ranked. */
  lemma LeftOversKeepTheirRank(input: PlanInput, a: Task, b: Task)
    requires Sane(input) && a in EligibleTasks(input) && b in EligibleTasks(input)
    requires a.id in PlanOf(input).unassignedTaskIds && b.id in PlanOf(input).unassignedTaskIds
    ensures Before(PlanOf(input).unassignedTaskIds, a.id, b.id) <==> Before(EligibleTasks(input), a, b)
  {
    SanePlan(input);
    var eligible, ids := EligibleTasks(input), Final(input).assignedIds;
    UniqueFilter(eligible, (t: Task) => t.id !in ids);
    NotAssignedIds(eligible, ids, a);
    NotAssignedIds(eligible, ids, b);
    FilterKeepsOrder(eligible, (t: Task) => t.id !in ids, a, b);
    IdsKeepOrder(NotAssigned(eligible, ids), a, b);
  }

  // ----- the order of the participants -----

  function MemberId(m: Member): string {
    m.id
  }

  /** A known adult, or a known child who is willing to help. */
  function HelpsById(input: PlanInput): string -> bool {
    (id: string) =>
      match MemberById(input.members, id)
      case None => false
      case Some(m) => m.role == Adult || m.willingToHelp
  }

  /** The participants are the chosen people who help, in the order in which they were chosen. */
  lemma {:induction false} ParticipantsFollowChoice(input: PlanInput, ids: seq<string>)
    ensures Transform(Participants(input, ids), MemberId) == Filter(ids, HelpsById(input))
  {
    if ids != [] {
      var front := ids[..|ids| - 1];
      ParticipantsFollowChoice(input, front);
    }
  }
}
