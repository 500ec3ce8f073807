/** The ids of a session's cards: a card for one task has that task's id, a bundle joins the ids of its tasks. */
module CardIdentity {
  import opened Options
  import opened Sequences
  import opened Tasks
  import opened Planner
  import opened PlanProofs
  import opened DisplayPlan

  /** The id of the card for the tasks with these ids. */
  function CardIdOf(ids: seq<string>): string {
    if |ids| == 1 then ids[0] else "bundle:" + Join(ids, '+')
  }

  function EntryIds(group: seq<Entry>): seq<string> {
    Transform(group, EntryId)
  }

  lemma CardHasIdOfItsTasks(group: seq<Entry>, showNames: bool)
    requires group != []
    ensures ToCard(showNames)(group).id == CardIdOf(EntryIds(group))
  {
  }

  ghost predicate UniqueCards(cards: seq<Card>) {
    forall i, j | 0 <= i < j < |cards| :: cards[i].id != cards[j].id
  }

  function BonusCards(bonus: seq<Task>): seq<Card> {
    Transform(bonus, (t: Task) => ToDisplayTask(t, None))
  }

  /** All the cards of a session: the planned ones and those on offer. */
  function SessionCards(assignments: seq<Assignment>, bank: seq<Task>, showNames: bool, bonus: seq<Task>): seq<Card> {
    CardsOf(assignments, showNames, bank) + BonusCards(bonus)
  }

  // ----- when ids tell cards apart -----

  function IdsIn(bank: seq<Task>): set<string> {
    set t | t in bank :: t.id
  }

  ghost predicate IdList(ids: seq<string>, pool: set<string>) {
    ids != [] && Distinct(ids) && forall id | id in ids :: id in pool
  }

  ghost predicate Disjoint(a: seq<string>, b: seq<string>) {
    forall id | id in a :: id !in b
  }

  /** No two lists of different ids from the pool lead to one card id. */
  ghost predicate TellingIds(pool: set<string>) {
    forall a, b | IdList(a, pool) && IdList(b, pool) && Disjoint(a, b) :: CardIdOf(a) != CardIdOf(b)
  }

  lemma FewerIdsStillTell(pool: set<string>, some: set<string>)
    requires TellingIds(pool) && some <= pool
    ensures TellingIds(some)
  {
    forall a, b | IdList(a, some) && IdList(b, some) && Disjoint(a, b)
      ensures CardIdOf(a) != CardIdOf(b)
    {
      assert IdList(a, pool) && IdList(b, pool);
    }
  }

  lemma JoinStartsWithHead(ids: seq<string>)
    requires ids != []
    ensures ids[0] <= Join(ids, '+')
    ensures |Join(ids, '+')| == |ids[0]| || Join(ids, '+')[|ids[0]|] == '+'
  {
  }

  /** Joined lists of '+'-free ids are equal only if they start with the same id. */
  lemma JoinTellsHeads(a: seq<string>, b: seq<string>)
    requires a != [] && b != [] && '+' !in a[0] && '+' !in b[0]
    requires Join(a, '+') == Join(b, '+')
    ensures a[0] == b[0]
  {
    JoinStartsWithHead(a);
    JoinStartsWithHead(b);
    assert |a[0]| == |b[0]|;
  }

  lemma JoinHasPlus(ids: seq<string>)
    requires |ids| >= 2
    ensures '+' in Join(ids, '+')
  {
  }

  /** Ids without a plus sign tell all cards apart. */
  lemma PlainIdsTell(pool: set<string>)
    requires forall id | id in pool :: '+' !in id
    ensures TellingIds(pool)
  {
    forall a, b | IdList(a, pool) && IdList(b, pool) && Disjoint(a, b)
      ensures CardIdOf(a) != CardIdOf(b)
    {
      PlainListsTell(a, b);
    }
  }

  lemma PlainListsTell(a: seq<string>, b: seq<string>)
    requires a != [] && b != [] && Disjoint(a, b)
    requires '+' !in a[0] && '+' !in b[0]
    ensures CardIdOf(a) != CardIdOf(b)
  {
    assert a[0] in a && b[0] in b;
    if |a| > 1 {
      JoinHasPlus(a);
      assert '+' in CardIdOf(a);
    }
    if |b| > 1 {
      JoinHasPlus(b);
      assert '+' in CardIdOf(b);
    }
    if |a| > 1 && |b| > 1 && CardIdOf(a) == CardIdOf(b) {
      assert CardIdOf(a)[7..] == Join(a, '+') && CardIdOf(b)[7..] == Join(b, '+');
      JoinTellsHeads(a, b);
    }
  }

  lemma JoinOfTwo(p: string, q: string)
    ensures Join([p, q], '+') == p + "+" + q
  {
    assert [p, q][1..] == [q];
    assert p + ['+'] + q == p + "+" + q;
  }

  /** An id of the pool spells out a bundle of two others. */
  predicate SpellsBundle(pool: set<string>, x: string, y: string) {
    x != y && {x, y, "bundle:" + (x + "+" + y)} <= pool
  }

  /** Four ids of the pool make two bundles that read the same, split at different plus signs. */
  predicate SplitsTwice(pool: set<string>, x: string, y: string, z: string) {
    && {x, y + "+" + z, x + "+" + y, z} <= pool
    && x != z && x != y + "+" + z && z != x + "+" + y && x + "+" + y != y + "+" + z
  }

  /** Two families of ids with a plus sign that do not tell their cards apart. */
  lemma UnplainIdsClash(pool: set<string>, x: string, y: string, z: string)
    requires SpellsBundle(pool, x, y) || SplitsTwice(pool, x, y, z)
    ensures !TellingIds(pool)
  {
    if SpellsBundle(pool, x, y) {
      var a, b := [x, y], ["bundle:" + (x + "+" + y)];
      JoinOfTwo(x, y);
      assert IdList(a, pool) && IdList(b, pool) && Disjoint(a, b) && CardIdOf(a) == CardIdOf(b);
    } else {
      var a, b := [x, y + "+" + z], [x + "+" + y, z];
      JoinOfTwo(x, y + "+" + z);
      JoinOfTwo(x + "+" + y, z);
      assert x + "+" + (y + "+" + z) == x + "+" + y + "+" + z;
      assert |x + "+" + y| > |x| && |y + "+" + z| > |z|;
      assert IdList(a, pool) && IdList(b, pool) && Disjoint(a, b);
    }
  }

  // ----- the cards of one plan -----

  lemma EntryPosition(assignments: seq<Assignment>, bank: seq<Task>, e: Entry) returns (k: nat)
    requires OwnTasks(assignments, bank) && e in EntriesOf(assignments, bank)
    ensures k < |assignments| == |EntriesOf(assignments, bank)| && EntriesOf(assignments, bank)[k] == e
    ensures assignments[k].taskId == e.task.id && e.task in bank
  {
    EntriesMatchAssignments(assignments, bank);
    k :| 0 <= k < |EntriesOf(assignments, bank)| && EntriesOf(assignments, bank)[k] == e;
  }

  lemma EntriesHaveOwnTasks(assignments: seq<Assignment>, bank: seq<Task>, d: Entry, e: Entry)
    requires OwnTasks(assignments, bank)
    requires d in EntriesOf(assignments, bank) && e in EntriesOf(assignments, bank)
    ensures d.task in bank && Has(assignments, d.task.id)
    ensures d != e ==> d.task.id != e.task.id
  {
    var k := EntryPosition(assignments, bank, d);
    var l := EntryPosition(assignments, bank, e);
    assert assignments[k] in assignments;
  }

  lemma GroupIdsAreOwn(assignments: seq<Assignment>, bank: seq<Task>, i: nat)
    requires OwnTasks(assignments, bank) && i < |CardGroups(assignments, bank)|
    ensures IdList(EntryIds(CardGroups(assignments, bank)[i]), IdsIn(bank))
    ensures forall id | id in EntryIds(CardGroups(assignments, bank)[i]) :: Has(assignments, id)
  {
    var entries, g := EntriesOf(assignments, bank), CardGroups(assignments, bank)[i];
    GroupsAreFaithful(entries, CardKey, i);
    EntriesAreDistinct(assignments, bank);
    FilterKeepsDistinct(entries, InGroup(KeysInOrder(entries, CardKey)[i]));
    GroupOfIsFilter(entries, KeysInOrder(entries, CardKey)[i]);
    forall k | 0 <= k < |g|
      ensures EntryIds(g)[k] in IdsIn(bank) && Has(assignments, EntryIds(g)[k])
    {
      EntriesHaveOwnTasks(assignments, bank, g[k], g[k]);
    }
    forall k, l | 0 <= k < l < |g|
      ensures EntryIds(g)[k] != EntryIds(g)[l]
    {
      EntriesHaveOwnTasks(assignments, bank, g[k], g[l]);
    }
  }

  function InGroup(key: string): Entry -> bool {
    (e: Entry) => CardKey(e) == key
  }

  lemma GroupOfIsFilter(entries: seq<Entry>, key: string)
    ensures GroupOf(entries, CardKey, key) == Filter(entries, InGroup(key))
  {
    FilterTwice(entries, (e: Entry) => true, x => CardKey(x) == key, InGroup(key));
    FilterEverything(entries, (e: Entry) => true);
  }

  lemma EntriesAreDistinct(assignments: seq<Assignment>, bank: seq<Task>)
    requires OwnTasks(assignments, bank)
    ensures Distinct(EntriesOf(assignments, bank))
  {
    EntriesMatchAssignments(assignments, bank);
  }

  lemma GroupIdsAreDisjoint(assignments: seq<Assignment>, bank: seq<Task>, i: nat, j: nat)
    requires OwnTasks(assignments, bank) && i < j < |CardGroups(assignments, bank)|
    ensures Disjoint(EntryIds(CardGroups(assignments, bank)[i]), EntryIds(CardGroups(assignments, bank)[j]))
  {
    var entries, g, h := EntriesOf(assignments, bank), CardGroups(assignments, bank)[i],
        CardGroups(assignments, bank)[j];
    GroupsAreFaithful(entries, CardKey, i);
    GroupsAreFaithful(entries, CardKey, j);
    forall k, l | 0 <= k < |g| && 0 <= l < |h|
      ensures EntryIds(g)[k] != EntryIds(h)[l]
    {
      assert g[k] in g && h[l] in h && CardKey(g[k]) != CardKey(h[l]);
      EntriesHaveOwnTasks(assignments, bank, g[k], h[l]);
    }
  }

  lemma CardIdInPlan(assignments: seq<Assignment>, bank: seq<Task>, showNames: bool, i: nat)
    requires OwnTasks(assignments, bank) && i < |CardGroups(assignments, bank)|
    ensures CardsOf(assignments, showNames, bank)[i].id == CardIdOf(EntryIds(CardGroups(assignments, bank)[i]))
  {
    GroupIdsAreOwn(assignments, bank, i);
    CardHasIdOfItsTasks(CardGroups(assignments, bank)[i], showNames);
  }

  lemma PlanCardsDiffer(assignments: seq<Assignment>, bank: seq<Task>, showNames: bool, i: nat, j: nat)
    requires OwnTasks(assignments, bank) && TellingIds(IdsIn(bank)) && i < j < |CardGroups(assignments, bank)|
    ensures CardsOf(assignments, showNames, bank)[i].id != CardsOf(assignments, showNames, bank)[j].id
  {
    GroupIdsAreOwn(assignments, bank, i);
    GroupIdsAreOwn(assignments, bank, j);
    GroupIdsAreDisjoint(assignments, bank, i, j);
    CardIdInPlan(assignments, bank, showNames, i);
    CardIdInPlan(assignments, bank, showNames, j);
  }

  lemma OtherIdIsTold(ids: seq<string>, id: string, pool: set<string>)
    requires TellingIds(pool) && IdList(ids, pool) && id in pool && id !in ids
    ensures CardIdOf(ids) != id
  {
    assert IdList([id], pool) && Disjoint(ids, [id]) && CardIdOf([id]) == id;
  }

  lemma BonusIsApart(assignments: seq<Assignment>, bank: seq<Task>, showNames: bool, i: nat, t: Task)
    requires OwnTasks(assignments, bank) && TellingIds(IdsIn(bank)) && i < |CardGroups(assignments, bank)|
    requires t in bank && !Has(assignments, t.id)
    ensures CardsOf(assignments, showNames, bank)[i].id != t.id
  {
    GroupIdsAreOwn(assignments, bank, i);
    OtherIdIsTold(EntryIds(CardGroups(assignments, bank)[i]), t.id, IdsIn(bank));
    CardIdInPlan(assignments, bank, showNames, i);
  }

  /** Bonus tasks are different tasks of the bank that are not assigned. */
  ghost predicate SpareTasks(bonus: seq<Task>, assignments: seq<Assignment>, bank: seq<Task>) {
    UniqueIds(bonus) && forall t | t in bonus :: t in bank && !Has(assignments, t.id)
  }

  lemma UniqueTogether(a: seq<Card>, b: seq<Card>)
    requires UniqueCards(a) && UniqueCards(b) && forall i, j | 0 <= i < |a| && 0 <= j < |b| :: a[i].id != b[j].id
    ensures UniqueCards(a + b)
  {
  }

  /** The cards of the assignments and the bonus cards of other tasks all have different ids. */
  lemma SessionCardsAreUnique(assignments: seq<Assignment>, bank: seq<Task>, showNames: bool, bonus: seq<Task>)
    requires OwnTasks(assignments, bank) && SpareTasks(bonus, assignments, bank) && TellingIds(IdsIn(bank))
    ensures UniqueCards(SessionCards(assignments, bank, showNames, bonus))
  {
    var cards, extra := CardsOf(assignments, showNames, bank), BonusCards(bonus);
    forall i, j | 0 <= i < j < |cards|
      ensures cards[i].id != cards[j].id
    {
      PlanCardsDiffer(assignments, bank, showNames, i, j);
    }
    forall i, j | 0 <= i < |cards| && 0 <= j < |extra|
      ensures cards[i].id != extra[j].id
    {
      assert bonus[j] in bonus;
      BonusIsApart(assignments, bank, showNames, i, bonus[j]);
    }
    UniqueTogether(cards, extra);
  }

  // ----- ids that do not tell lead to a session with equal cards -----

  function Bundled(ids: seq<string>, key: string): seq<Task> {
    Transform(ids, (id: string) => NamedTask(id, Some(key)))
  }

  function GivenTo(memberId: string): Task -> Assignment {
    (t: Task) => EntryFor(t, memberId).assignment
  }

  function AsEntry(memberId: string): Task -> Entry {
    (t: Task) => EntryFor(t, memberId)
  }

  lemma EntriesOfOwnBank(bank: seq<Task>, memberId: string)
    requires UniqueIds(bank)
    ensures OwnTasks(Transform(bank, GivenTo(memberId)), bank)
    ensures EntriesOf(Transform(bank, GivenTo(memberId)), bank) == Transform(bank, AsEntry(memberId))
  {
    var assignments := Transform(bank, GivenTo(memberId));
    forall i | 0 <= i < |bank|
      ensures TaskById(bank, assignments[i].taskId) == Some(bank[i])
    {
      FindsItself(bank, bank[i]);
    }
    EntriesMatchAssignments(assignments, bank);
  }

  lemma BundledBankIsUnique(a: seq<string>, b: seq<string>)
    requires Distinct(a) && Distinct(b) && Disjoint(a, b)
    ensures UniqueIds(Bundled(a, "a") + Bundled(b, "b"))
  {
    var bank := Bundled(a, "a") + Bundled(b, "b");
    forall i, j | 0 <= i < j < |bank|
      ensures bank[i].id != bank[j].id
    {
      if i < |a| <= j {
        assert a[i] in a && b[j - |a|] in b;
      }
    }
  }

  /** A card that holds exactly the bundle, wherever it stands among the others. */
  lemma BundleHasCard(entries: seq<Entry>, x: seq<Entry>, y: seq<Entry>, key: string, first: bool, showNames: bool)
    returns (i: nat)
    requires entries == (if first then x + y else y + x) && x != []
    requires (forall e | e in x :: CardKey(e) == key) && forall e | e in y :: CardKey(e) != key
    ensures i < |Groups(entries, CardKey)| && KeysInOrder(entries, CardKey)[i] == key
    ensures ToCard(showNames)(Groups(entries, CardKey)[i]).id == CardIdOf(EntryIds(x))
  {
    assert x[0] in x && x[0] in entries;
    i :| 0 <= i < |KeysInOrder(entries, CardKey)| && KeysInOrder(entries, CardKey)[i] == key;
    if first {
      GroupIsFront(x, y, CardKey, key);
    } else {
      GroupIsBack(y, x, CardKey, key);
    }
    CardHasIdOfItsTasks(x, showNames);
  }

  lemma BundleEntries(ids: seq<string>, key: string)
    ensures EntryIds(Transform(Bundled(ids, key), AsEntry("m"))) == ids
    ensures key != "" ==> forall e | e in Transform(Bundled(ids, key), AsEntry("m")) :: CardKey(e) == "m:" + key
  {
    assert "m" + ":" + key == "m:" + key;
  }

  lemma TwoBundlesClash(x: seq<Entry>, y: seq<Entry>, showNames: bool) returns (i: nat, j: nat)
    requires x != [] && y != [] && CardIdOf(EntryIds(x)) == CardIdOf(EntryIds(y))
    requires (forall e | e in x :: CardKey(e) == "m:a") && forall e | e in y :: CardKey(e) == "m:b"
    ensures i < |Groups(x + y, CardKey)| && j < |Groups(x + y, CardKey)| && i != j
    ensures ToCard(showNames)(Groups(x + y, CardKey)[i]).id == ToCard(showNames)(Groups(x + y, CardKey)[j]).id
  {
    assert "m:a"[2] != "m:b"[2];
    i := BundleHasCard(x + y, x, y, "m:a", true, showNames);
    j := BundleHasCard(x + y, y, x, "m:b", false, showNames);
  }

  function BundledBank(a: seq<string>, b: seq<string>): seq<Task> {
    Bundled(a, "a") + Bundled(b, "b")
  }

  lemma BundledEntries(a: seq<string>, b: seq<string>)
    requires Distinct(a) && Distinct(b) && Disjoint(a, b)
    ensures var bank := BundledBank(a, b);
            && OwnTasks(Transform(bank, GivenTo("m")), bank)
            && EntriesOf(Transform(bank, GivenTo("m")), bank)
               == Transform(Bundled(a, "a"), AsEntry("m")) + Transform(Bundled(b, "b"), AsEntry("m"))
  {
    BundledBankIsUnique(a, b);
    EntriesOfOwnBank(BundledBank(a, b), "m");
    TransformConcat(Bundled(a, "a"), Bundled(b, "b"), AsEntry("m"));
  }

  lemma BundledIdsAreIn(a: seq<string>, b: seq<string>, pool: set<string>)
    requires IdList(a, pool) && IdList(b, pool)
    ensures IdsIn(BundledBank(a, b)) <= pool
  {
    var bank := BundledBank(a, b);
    forall t | t in bank
      ensures t.id in pool
    {
      var k :| 0 <= k < |bank| && bank[k] == t;
      assert t.id == if k < |a| then a[k] else b[k - |a|];
    }
  }

  lemma EqualCardsAreNotUnique(assignments: seq<Assignment>, bank: seq<Task>, showNames: bool, i: nat, j: nat)
    requires i < |CardGroups(assignments, bank)| && j < |CardGroups(assignments, bank)| && i != j
    requires ToCard(showNames)(CardGroups(assignments, bank)[i]).id
              == ToCard(showNames)(CardGroups(assignments, bank)[j]).id
    ensures !UniqueCards(SessionCards(assignments, bank, showNames, []))
  {
    var cards := SessionCards(assignments, bank, showNames, []);
    assert cards[i].id == cards[j].id;
  }

  /** Two lists with one card id, as two bundles of one member, are a session with two equal cards. */
  lemma ClashingListsClash(a: seq<string>, b: seq<string>, pool: set<string>, showNames: bool)
    requires IdList(a, pool) && IdList(b, pool) && Disjoint(a, b) && CardIdOf(a) == CardIdOf(b)
    ensures OwnTasks(Transform(BundledBank(a, b), GivenTo("m")), BundledBank(a, b)) && IdsIn(BundledBank(a, b)) <= pool
    ensures !UniqueCards(SessionCards(Transform(BundledBank(a, b), GivenTo("m")), BundledBank(a, b), showNames, []))
  {
    var x, y := Transform(Bundled(a, "a"), AsEntry("m")), Transform(Bundled(b, "b"), AsEntry("m"));
    BundledEntries(a, b);
    BundledIdsAreIn(a, b, pool);
    BundleEntries(a, "a");
    BundleEntries(b, "b");
    var i, j := TwoBundlesClash(x, y, showNames);
    EqualCardsAreNotUnique(Transform(BundledBank(a, b), GivenTo("m")), BundledBank(a, b), showNames, i, j);
  }

  ghost predicate SessionsTell(pool: set<string>) {
    forall assignments, bank, showNames, bonus |
      OwnTasks(assignments, bank) && IdsIn(bank) <= pool && SpareTasks(bonus, assignments, bank) ::
      UniqueCards(SessionCards(assignments, bank, showNames, bonus))
  }

  /** Every session over tasks with ids from the pool has cards with different ids exactly when no two disjoint lists of
      those ids lead to one card id. */
  lemma SessionCardsAreUniqueExactly(pool: set<string>)
    ensures SessionsTell(pool) <==> TellingIds(pool)
  {
    if TellingIds(pool) {
      forall assignments, bank, showNames, bonus |
        OwnTasks(assignments, bank) && IdsIn(bank) <= pool && SpareTasks(bonus, assignments, bank)
        ensures UniqueCards(SessionCards(assignments, bank, showNames, bonus))
      {
        FewerIdsStillTell(pool, IdsIn(bank));
        SessionCardsAreUnique(assignments, bank, showNames, bonus);
      }
    } else {
      var a, b :| IdList(a, pool) && IdList(b, pool) && Disjoint(a, b) && CardIdOf(a) == CardIdOf(b);
      ClashingListsClash(a, b, pool, false);
      var bank := BundledBank(a, b);
      assert SpareTasks([], Transform(bank, GivenTo("m")), bank);
    }
  }
}
