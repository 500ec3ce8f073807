/** What a RECOGNIZED_USERS text means, told by the text itself: which parts name users, and which are faulty. */
module Allowlist {
  import opened Options
  import opened Text
  import opened SignIn

  // ----- one entry -----

  /** The part is the text with white space around it. */
  ghost predicate Surrounds(part: string, entry: string) {
    exists a, c :: part == a + entry + c && IsBlank(a) && IsBlank(c)
  }

  /** The part reads `left:right` inside white space, cut at its first colon. */
  ghost predicate Reads(part: string, left: string, right: string) {
    Surrounds(part, left + ":" + right) && ':' !in left && IsTrimmed(left + ":" + right)
  }

  /** What is written is one of the two roles, inside white space. */
  ghost predicate WritesRole(right: string, role: Role) {
    Surrounds(right, role) && role in {"admin", "user"}
  }

  /** The part names the address, as what stands before the colon normalises, and the role after it. */
  ghost predicate Names(part: string, address: string, role: Role, normalize: Normalizer) {
    exists left, right :: Reads(part, left, right) && normalize(left) == Some(address) && WritesRole(right, role)
  }

  /** What is wrong with a part: no colon, no address before it, or no role after it. */
  ghost predicate Faulty(part: string, error: ParseError, normalize: Normalizer) {
    match error
    case MissingRole(entry) => !IsBlank(part) && ':' !in part && IsTrimmed(entry) && Surrounds(part, entry)
    case BadAddress(left) => exists right :: Reads(part, left, right) && normalize(left).None?
    case UnknownRole(address, right) =>
      exists left ::
        Reads(part, left, right) && normalize(left) == Some(address) && forall role :: !WritesRole(right, role)
  }

  lemma TrimmedExactly(part: string, entry: string)
    requires IsTrimmed(entry)
    ensures Surrounds(part, entry) <==> TrimSpace(part) == entry
  {
    if a, c :| part == a + entry + c && IsBlank(a) && IsBlank(c) {
      TrimTakesPadding(a, entry, c);
    }
    var a, c := TrimPads(part);
  }

  lemma ReadsIsCut(part: string, left: string, right: string)
    ensures Reads(part, left, right) <==> Cut(TrimSpace(part), ':') == Some((left, right))
  {
    var _, _ := TrimPads(part);
    if Reads(part, left, right) {
      TrimmedExactly(part, left + ":" + right);
      CutAtFirst(left, ':', right);
    }
    if Cut(TrimSpace(part), ':') == Some((left, right)) {
      assert TrimSpace(part) == left + ":" + right;
      TrimmedExactly(part, left + ":" + right);
    }
  }

  lemma ColonIsNoSpace(part: string)
    ensures ':' in TrimSpace(part) <==> ':' in part
  {
    var a, c := TrimPads(part);
    assert ':' !in a && ':' !in c;
  }

  lemma RolesAreTrimmed(right: string, role: Role)
    ensures WritesRole(right, role) <==> ValidRole(role) && TrimSpace(right) == role
  {
    if ValidRole(role) {
      TrimmedExactly(right, role);
    }
  }

  lemma NamesExactly(part: string, address: string, role: Role, normalize: Normalizer)
    ensures Names(part, address, role, normalize) <==> ReadEntry(part, normalize) == User(address, role)
  {
    if left, right :| Reads(part, left, right) && normalize(left) == Some(address) && WritesRole(right, role) {
      ReadsIsCut(part, left, right);
      RolesAreTrimmed(right, role);
    }
    if ReadEntry(part, normalize) == User(address, role) {
      var (left, right) := Cut(TrimSpace(part), ':').value;
      ReadsIsCut(part, left, right);
      RolesAreTrimmed(right, role);
    }
  }

  lemma NoRoleExactly(right: string)
    ensures (forall role :: !WritesRole(right, role)) <==> !ValidRole(TrimSpace(right))
  {
    RolesAreTrimmed(right, TrimSpace(right));
    forall role | WritesRole(right, role)
      ensures ValidRole(TrimSpace(right))
    {
      RolesAreTrimmed(right, role);
    }
  }

  lemma FaultyIsMalformed(part: string, error: ParseError, normalize: Normalizer)
    requires Faulty(part, error, normalize)
    ensures ReadEntry(part, normalize) == Malformed(error)
  {
    BlankExactly(part);
    ColonIsNoSpace(part);
    match error
    case MissingRole(entry) => TrimmedExactly(part, entry);
    case BadAddress(left) =>
      var right :| Reads(part, left, right) && normalize(left).None?;
      ReadsIsCut(part, left, right);
    case UnknownRole(address, right) =>
      var left :|
        Reads(part, left, right) && normalize(left) == Some(address) && forall role :: !WritesRole(right, role);
      ReadsIsCut(part, left, right);
      NoRoleExactly(right);
  }

  lemma MalformedIsFaulty(part: string, error: ParseError, normalize: Normalizer)
    requires ReadEntry(part, normalize) == Malformed(error)
    ensures Faulty(part, error, normalize)
  {
    BlankExactly(part);
    ColonIsNoSpace(part);
    match Cut(TrimSpace(part), ':')
    case None =>
      var _, _ := TrimPads(part);
      TrimmedExactly(part, TrimSpace(part));
    case Some((left, right)) =>
      ReadsIsCut(part, left, right);
      NoRoleExactly(right);
  }

  // ----- the whole text -----

  lemma PaddingMakesNoEntry(a: string, part: string, c: string, normalize: Normalizer)
    requires IsBlank(a) && IsBlank(c)
    ensures ReadEntry(a + part + c, normalize) == ReadEntry(part, normalize)
  {
    PaddingIsTrimmed(a, part, c);
  }

  lemma BlankHasNoComma(a: string)
    requires IsBlank(a)
    ensures ',' !in a
  {
  }

  /** The parts of a padded text are those of the text, the first and the last one padded. */
  lemma PaddedParts(a: string, t: string, c: string, i: nat) returns (front: string, back: string)
    requires IsBlank(a) && IsBlank(c) && i < |Split(t, ',')|
    ensures |Split(a + t + c, ',')| == |Split(t, ',')|
    ensures IsBlank(front) && IsBlank(back) && Split(a + t + c, ',')[i] == front + Split(t, ',')[i] + back
  {
    BlankHasNoComma(a);
    BlankHasNoComma(c);
    assert a + t + c == a + (t + c);
    SplitAfter(a, t + c, ',');
    SplitBefore(t, c, ',');
    front, back := if i == 0 then a else [], if i == |Split(t, ',')| - 1 then c else [];
    assert Split(a + t + c, ',')[i] == front + (Split(t, ',')[i] + back);
    assert front + (Split(t, ',')[i] + back) == front + Split(t, ',')[i] + back;
  }

  /** Joining parts with commas and reading the text is reading the parts. */
  lemma TextIsItsParts(parts: seq<string>, normalize: Normalizer)
    requires parts != [] && FreeOf(parts, ',')
    ensures ReadEntries(Joined(parts, ','), normalize) == EntriesOf(parts, normalize)
  {
    var raw := Joined(parts, ',');
    JoinSplits(parts, ',');
    var a, c := TrimPads(raw);
    var trimmed := Split(TrimSpace(raw), ',');
    forall i | 0 <= i < |trimmed|
      ensures |parts| == |trimmed| && ReadEntry(parts[i], normalize) == ReadEntry(trimmed[i], normalize)
    {
      var front, back := PaddedParts(a, TrimSpace(raw), c, i);
      PaddingMakesNoEntry(front, trimmed[i], back, normalize);
    }
  }

  ghost predicate IsFine(part: string, normalize: Normalizer) {
    IsBlank(part) || exists address, role :: Names(part, address, role, normalize)
  }

  /** The part at i names the user, and no later part names that address again. */
  ghost predicate NamesLast(parts: seq<string>, i: nat, address: string, role: Role, normalize: Normalizer)
    requires i < |parts|
  {
    && Names(parts[i], address, role, normalize)
    && forall k, other | i < k < |parts| :: !Names(parts[k], address, other, normalize)
  }

  /** What parsing the comma-separated parts must give. */
  ghost predicate Means(parts: seq<string>, r: Parsed, normalize: Normalizer) {
    match r
    case Users(users) =>
      && (forall i | 0 <= i < |parts| :: IsFine(parts[i], normalize))
      && (forall i, address, role | 0 <= i < |parts| && NamesLast(parts, i, address, role, normalize) ::
            address in users && users[address] == role)
      && forall address | address in users ::
           exists i, role :: 0 <= i < |parts| && Names(parts[i], address, role, normalize)
    case Rejected(error) =>
      exists i :: 0 <= i < |parts| && Faulty(parts[i], error, normalize)
        && forall k | 0 <= k < i :: IsFine(parts[k], normalize)
  }

  lemma FineExactly(part: string, normalize: Normalizer)
    ensures IsFine(part, normalize) <==> !ReadEntry(part, normalize).Malformed?
  {
    BlankExactly(part);
    var e := ReadEntry(part, normalize);
    if e.User? {
      NamesExactly(part, e.address, e.role, normalize);
    }
    forall address, role | Names(part, address, role, normalize)
      ensures e.User?
    {
      NamesExactly(part, address, role, normalize);
    }
  }

  lemma LastWordExactly(parts: seq<string>, i: nat, address: string, role: Role, normalize: Normalizer)
    requires i < |parts| && NamesLast(parts, i, address, role, normalize)
    ensures var es := EntriesOf(parts, normalize); LastWord(es, i) && es[i] == User(address, role)
  {
    NamesExactly(parts[i], address, role, normalize);
    var es := EntriesOf(parts, normalize);
    forall k | i < k < |es| && es[k].User?
      ensures es[k].address != address
    {
      NamesExactly(parts[k], es[k].address, es[k].role, normalize);
    }
  }

  lemma UsersMean(parts: seq<string>, users: map<string, Role>, normalize: Normalizer)
    requires ParsedFrom(Users(users), EntriesOf(parts, normalize))
    ensures Means(parts, Users(users), normalize)
  {
    var es := EntriesOf(parts, normalize);
    forall i | 0 <= i < |parts|
      ensures IsFine(parts[i], normalize)
    {
      FineExactly(parts[i], normalize);
    }
    forall i, address, role | 0 <= i < |parts| && NamesLast(parts, i, address, role, normalize)
      ensures address in users && users[address] == role
    {
      LastWordExactly(parts, i, address, role, normalize);
    }
    forall address | address in users
      ensures exists i, role :: 0 <= i < |parts| && Names(parts[i], address, role, normalize)
    {
      var i :| 0 <= i < |es| && es[i].User? && es[i].address == address;
      NamesExactly(parts[i], address, es[i].role, normalize);
    }
  }

  lemma RejectionMeans(parts: seq<string>, error: ParseError, normalize: Normalizer)
    requires ParsedFrom(Rejected(error), EntriesOf(parts, normalize))
    ensures Means(parts, Rejected(error), normalize)
  {
    var es := EntriesOf(parts, normalize);
    var i :| 0 <= i < |es| && es[i] == Malformed(error) && forall k | 0 <= k < i :: !es[k].Malformed?;
    MalformedIsFaulty(parts[i], error, normalize);
    forall k | 0 <= k < i
      ensures IsFine(parts[k], normalize)
    {
      FineExactly(parts[k], normalize);
    }
  }

  /** The parser's answer to a list of parts joined with commas: the role each address is last given, or the first
      fault, whatever white space surrounds addresses, roles and parts. */
  lemma AllowlistMeansItsText(parts: seq<string>, r: Parsed, normalize: Normalizer)
    requires parts != [] && FreeOf(parts, ',')
    requires ParsedFrom(r, ReadEntries(Joined(parts, ','), normalize))
    ensures Means(parts, r, normalize)
  {
    TextIsItsParts(parts, normalize);
    match r
    case Users(users) => UsersMean(parts, users, normalize);
    case Rejected(error) => RejectionMeans(parts, error, normalize);
  }

  /** Every text is such a list, so this says what any text means. */
  lemma EveryTextMeansSomething(raw: string, r: Parsed, normalize: Normalizer)
    requires ParsedFrom(r, ReadEntries(raw, normalize))
    ensures Means(Split(raw, ','), r, normalize)
  {
    SplitJoins(raw, ',');
    AllowlistMeansItsText(Split(raw, ','), r, normalize);
  }

  // ----- the meaning is one -----

  lemma FaultyIsNotFine(part: string, error: ParseError, normalize: Normalizer)
    requires Faulty(part, error, normalize)
    ensures !IsFine(part, normalize)
  {
    FaultyIsMalformed(part, error, normalize);
    FineExactly(part, normalize);
  }

  lemma NamesOnce(part: string, address: string, role: Role, other: Role, normalize: Normalizer)
    requires Names(part, address, role, normalize) && Names(part, address, other, normalize)
    ensures role == other
  {
    NamesExactly(part, address, role, normalize);
    NamesExactly(part, address, other, normalize);
  }

  /** An address that is named is named for the last time somewhere. */
  lemma {:induction false} NamedLastSomewhere(parts: seq<string>, i: nat, address: string, role: Role,
                                              normalize: Normalizer) returns (k: nat, last: Role)
    requires i < |parts| && Names(parts[i], address, role, normalize)
    ensures k < |parts| && NamesLast(parts, k, address, last, normalize)
    decreases |parts| - i
  {
    if j, other :| i < j < |parts| && Names(parts[j], address, other, normalize) {
      k, last := NamedLastSomewhere(parts, j, address, other, normalize);
    } else {
      k, last := i, role;
    }
  }

  lemma UsersAgree(parts: seq<string>, users: map<string, Role>, others: map<string, Role>, normalize: Normalizer,
                   address: string)
    requires Means(parts, Users(users), normalize) && Means(parts, Users(others), normalize) && address in users
    ensures address in others && users[address] == others[address]
  {
    var i, role :| 0 <= i < |parts| && Names(parts[i], address, role, normalize);
    var k, last := NamedLastSomewhere(parts, i, address, role, normalize);
  }

  lemma FirstFault(parts: seq<string>, error: ParseError, normalize: Normalizer) returns (i: nat)
    requires Means(parts, Rejected(error), normalize)
    ensures i < |parts| && ReadEntry(parts[i], normalize) == Malformed(error)
    ensures forall k | 0 <= k < i :: !ReadEntry(parts[k], normalize).Malformed?
  {
    i :| 0 <= i < |parts| && Faulty(parts[i], error, normalize) && forall k | 0 <= k < i :: IsFine(parts[k], normalize);
    FaultyIsMalformed(parts[i], error, normalize);
    forall k | 0 <= k < i
      ensures !ReadEntry(parts[k], normalize).Malformed?
    {
      FineExactly(parts[k], normalize);
    }
  }

  lemma RejectionsAgree(parts: seq<string>, error: ParseError, other: ParseError, normalize: Normalizer)
    requires Means(parts, Rejected(error), normalize) && Means(parts, Rejected(other), normalize)
    ensures error == other
  {
    var i := FirstFault(parts, error, normalize);
    var j := FirstFault(parts, other, normalize);
    assert i == j;
  }

  lemma AcceptedIsNotRejected(parts: seq<string>, users: map<string, Role>, error: ParseError, normalize: Normalizer)
    requires Means(parts, Users(users), normalize)
    ensures !Means(parts, Rejected(error), normalize)
  {
    forall i | 0 <= i < |parts|
      ensures !Faulty(parts[i], error, normalize)
    {
      if Faulty(parts[i], error, normalize) {
        FaultyIsNotFine(parts[i], error, normalize);
      }
    }
  }

  lemma AllowlistsAgree(parts: seq<string>, users: map<string, Role>, others: map<string, Role>,
                        normalize: Normalizer)
    requires Means(parts, Users(users), normalize) && Means(parts, Users(others), normalize)
    ensures users == others
  {
    forall address | address in users
      ensures address in others && users[address] == others[address]
    {
      UsersAgree(parts, users, others, normalize, address);
    }
    forall address | address in others
      ensures address in users
    {
      UsersAgree(parts, others, users, normalize, address);
    }
    SameMaps(users, others);
  }

  lemma SameMaps(a: map<string, Role>, b: map<string, Role>)
    requires forall k | k in a :: k in b && a[k] == b[k]
    requires forall k | k in b :: k in a
    ensures a == b
  {
    assert a.Keys == b.Keys;
  }

  /** The parts leave the parser one answer only. */
  lemma MeaningIsUnique(parts: seq<string>, r: Parsed, s: Parsed, normalize: Normalizer)
    requires Means(parts, r, normalize) && Means(parts, s, normalize)
    ensures r == s
  {
    if r.Users? && s.Users? {
      AllowlistsAgree(parts, r.users, s.users, normalize);
    } else if r.Rejected? && s.Rejected? {
      RejectionsAgree(parts, r.error, s.error, normalize);
    } else if r.Users? {
      AcceptedIsNotRejected(parts, r.users, s.error, normalize);
    } else {
      AcceptedIsNotRejected(parts, s.users, r.error, normalize);
    }
  }
}
