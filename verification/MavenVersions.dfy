/** The Maven version comparison the classpath uses (`launch/classpath.rs`). */
module MavenVersions {
  import opened Wrappers

  datatype Ordering = Less | Equal | Greater {
    function Flip(): Ordering {
      match this case Less => Greater case Equal => Equal case Greater => Less
    }
  }

  // ---------- segments ----------

  predicate IsSeparator(c: char) {
    c == '.' || c == '-' || c == '_' || c == '+'
  }

  /** The segments of `current` followed by `s`; empty ones are dropped. */
  function SplitFrom(current: string, s: string): seq<string>
    decreases |s|
  {
    if s == [] then Nonempty(current)
    else if IsSeparator(s[0]) then Nonempty(current) + SplitFrom([], s[1..])
    else SplitFrom(current + [s[0]], s[1..])
  }

  function Nonempty(segment: string): seq<string> {
    if segment == [] then [] else [segment]
  }

  function Segments(s: string): seq<string> {
    SplitFrom([], s)
  }

  predicate IsSegment(s: string) {
    s != [] && forall k | 0 <= k < |s| :: !IsSeparator(s[k])
  }

  function JoinSegments(segments: seq<string>): string {
    if segments == [] then "" else segments[0] + "-" + JoinSegments(segments[1..])
  }

  lemma {:induction false} SplitSegment(current: string, segment: string, rest: string)
    requires forall k | 0 <= k < |segment| :: !IsSeparator(segment[k])
    ensures SplitFrom(current, segment + "-" + rest) == Nonempty(current + segment) + SplitFrom([], rest)
    decreases |segment|
  {
    var s := segment + "-" + rest;
    if segment == [] {
      assert s[1..] == rest && current + segment == current;
    } else {
      assert s[1..] == segment[1..] + "-" + rest;
      assert current + segment == current + [segment[0]] + segment[1..];
      SplitSegment(current + [segment[0]], segment[1..], rest);
    }
  }

  lemma {:induction false} SegmentsOfJoin(segments: seq<string>)
    requires forall k | 0 <= k < |segments| :: IsSegment(segments[k])
    ensures Segments(JoinSegments(segments)) == segments
  {
    if segments != [] {
      SplitSegment([], segments[0], JoinSegments(segments[1..]));
      assert [] + segments[0] == segments[0];
      SegmentsOfJoin(segments[1..]);
    }
  }

  lemma {:induction false} SegmentsAreSegments(current: string, s: string)
    requires forall k | 0 <= k < |current| :: !IsSeparator(current[k])
    ensures forall k | 0 <= k < |SplitFrom(current, s)| :: IsSegment(SplitFrom(current, s)[k])
    decreases |s|
  {
    if s != [] {
      SegmentsAreSegments(if IsSeparator(s[0]) then [] else current + [s[0]], s[1..]);
    }
  }

  // ---------- one segment against another ----------

  function Decimal(s: string): nat
    requires forall k | 0 <= k < |s| :: '0' <= s[k] <= '9'
  {
    if s == [] then 0 else 10 * Decimal(s[..|s| - 1]) + (s[|s| - 1] as int - '0' as int)
  }

  /** `parse::<u64>` on a segment, which holds no sign. */
  function ParseU64(s: string): Option<nat> {
    if s == [] || exists k | 0 <= k < |s| :: !('0' <= s[k] <= '9') then None
    else if Decimal(s) > 0xFFFF_FFFF_FFFF_FFFF then None
    else Some(Decimal(s))
  }

  function LowerChar(c: char): char {
    if 'A' <= c <= 'Z' then (c as int + 32) as char else c
  }

  function Lower(s: string): string {
    seq(|s|, k requires 0 <= k < |s| => LowerChar(s[k]))
  }

  function Lex(a: string, b: string): Ordering {
    if a == [] then (if b == [] then Equal else Less)
    else if b == [] then Greater
    else if a[0] < b[0] then Less
    else if a[0] > b[0] then Greater
    else Lex(a[1..], b[1..])
  }

  const MARKERS := ["alpha", "beta", "rc", "snapshot", "pre", "m"]

  predicate IsPrerelease(segment: string) {
    && (exists k | 0 <= k < |MARKERS| :: MARKERS[k] <= Lower(segment))
    && ParseU64(segment) == None
  }

  /** What a segment counts as; `End` is the place after the last one. */
  datatype Slot = Number(n: nat) | Qualifier(lower: string, prerelease: bool) | End

  function SlotOf(segment: string): Slot {
    match ParseU64(segment)
    case Some(n) => Number(n)
    case None => Qualifier(Lower(segment), IsPrerelease(segment))
  }

  function CompareSlots(a: Slot, b: Slot): Ordering {
    match (a, b)
    case (Number(m), Number(n)) => if m < n then Less else if m > n then Greater else Equal
    case (Number(_), _) => Greater
    case (_, Number(_)) => Less
    case (Qualifier(p, _), Qualifier(q, _)) => Lex(p, q)
    case (Qualifier(_, pre), End) => if pre then Less else Greater
    case (End, Qualifier(_, pre)) => if pre then Greater else Less
    case (End, End) => Equal
  }

  function Head(segments: seq<string>): Slot {
    if segments == [] then End else SlotOf(segments[0])
  }

  function Compare(a: seq<string>, b: seq<string>): Ordering {
    var order := CompareSlots(Head(a), Head(b));
    if order != Equal || a == [] || b == [] then order else Compare(a[1..], b[1..])
  }

  method CompareMavenVersions(a: string, b: string) returns (order: Ordering)
    ensures order == Compare(Segments(a), Segments(b))
  {
    var sa, sb := Segments(a), Segments(b);
    var i := 0;
    while i < |sa| || i < |sb|
      invariant i <= |sa| && i <= |sb|
      invariant Compare(sa[i..], sb[i..]) == Compare(sa, sb)
      decreases |sa| - i
    {
      if i < |sa| && i < |sb| {
        var x, y := sa[i], sb[i];
        match (ParseU64(x), ParseU64(y)) {
          case (Some(nx), Some(ny)) => order := if nx < ny then Less else if nx > ny then Greater else Equal;
          case (Some(_), None) => order := Greater;
          case (None, Some(_)) => order := Less;
          case (None, None) => order := Lex(Lower(x), Lower(y));
        }
        if order != Equal { return; }
        assert sa[i..][1..] == sa[i + 1..] && sb[i..][1..] == sb[i + 1..];
      } else if i < |sa| {
        NumbersAreNotMarkers(sa[i]);
        return if IsPrerelease(sa[i]) then Less else Greater;
      } else {
        NumbersAreNotMarkers(sb[i]);
        return if IsPrerelease(sb[i]) then Greater else Less;
      }
      i := i + 1;
    }
    order := Equal;
  }

  lemma NumbersAreNotMarkers(segment: string)
    ensures SlotOf(segment).Number? ==> !IsPrerelease(segment)
  {
  }

  // ---------- what holds of all versions ----------

  lemma {:induction false} LexFlips(a: string, b: string)
    ensures Lex(b, a) == Lex(a, b).Flip()
    ensures Lex(a, b) == Equal <==> a == b
  {
    if a != [] && b != [] {
      LexFlips(a[1..], b[1..]);
      assert a == [a[0]] + a[1..] && b == [b[0]] + b[1..];
    }
  }

  lemma SlotsFlip(a: Slot, b: Slot)
    ensures CompareSlots(b, a) == CompareSlots(a, b).Flip()
  {
    if a.Qualifier? && b.Qualifier? { LexFlips(a.lower, b.lower); }
  }

  /** The comparison is antisymmetric on every pair of versions. */
  lemma {:induction false} Antisymmetric(a: seq<string>, b: seq<string>)
    ensures Compare(b, a) == Compare(a, b).Flip()
  {
    SlotsFlip(Head(a), Head(b));
    if a != [] && b != [] { Antisymmetric(a[1..], b[1..]); }
  }

  ghost predicate SameSlots(a: seq<string>, b: seq<string>) {
    |a| == |b| && forall k | 0 <= k < |a| ::
      match SlotOf(a[k])
      case Number(n) => SlotOf(b[k]) == Number(n)
      case Qualifier(l, _) => SlotOf(b[k]).Qualifier? && SlotOf(b[k]).lower == l
  }

  /** Two versions are equal exactly when their numbers agree in value and their qualifiers but for case. */
  lemma {:induction false} EqualExactly(a: seq<string>, b: seq<string>)
    ensures Compare(a, b) == Equal <==> SameSlots(a, b)
  {
    if a != [] && b != [] {
      var p, q := SlotOf(a[0]), SlotOf(b[0]);
      if p.Qualifier? && q.Qualifier? { LexFlips(p.lower, q.lower); }
      EqualExactly(a[1..], b[1..]);
      if SameSlots(a[1..], b[1..]) && CompareSlots(p, q) == Equal {
        forall k | 0 <= k < |a| ensures k > 0 ==> a[k] == a[1..][k - 1] && b[k] == b[1..][k - 1] {}
        assert SameSlots(a, b);
      }
      if SameSlots(a, b) {
        forall k | 0 <= k < |a[1..]| ensures a[1..][k] == a[k + 1] && b[1..][k] == b[k + 1] {}
        assert SameSlots(a[1..], b[1..]);
      }
    }
  }

  // ---------- where it is an order ----------

  lemma {:induction false} LexTransitive(a: string, b: string, c: string)
    requires Lex(a, b) != Greater && Lex(b, c) != Greater
    ensures Lex(a, c) != Greater
    ensures Lex(a, b) == Less || Lex(b, c) == Less ==> Lex(a, c) == Less
  {
    if a != [] && b != [] && c != [] && a[0] == b[0] == c[0] { LexTransitive(a[1..], b[1..], c[1..]); }
  }

  lemma LowerKeepsKind(s: string)
    requires ParseU64(s) == None
    ensures ParseU64(Lower(s)) == None && Lower(Lower(s)) == Lower(s)
    ensures IsPrerelease(s) <==> IsPrerelease(Lower(s))
  {
    if forall k | 0 <= k < |s| :: '0' <= s[k] <= '9' {
      assert Lower(s) == s;
    } else {
      var k :| 0 <= k < |s| && !('0' <= s[k] <= '9');
      assert !('0' <= Lower(s)[k] <= '9');
    }
    assert Lower(Lower(s)) == Lower(s);
  }

  /** A set of qualifiers as the comparison sees them: in lower case. */
  ghost predicate Qualifiers(words: iset<string>) {
    forall q | q in words :: IsSegment(q) && ParseU64(q) == None && Lower(q) == q
  }

  /** Every segment of the version is a number or one of the words. */
  ghost predicate Over(segments: seq<string>, words: iset<string>) {
    forall k | 0 <= k < |segments| && ParseU64(segments[k]) == None :: Lower(segments[k]) in words
  }

  /** No pre-release word comes after, or equals, a word that is none. */
  ghost predicate PrereleasesFirst(words: iset<string>) {
    forall p, q | p in words && q in words && IsPrerelease(p) && !IsPrerelease(q) :: Lex(p, q) == Less
  }

  ghost predicate SlotOver(s: Slot, words: iset<string>) {
    s.Qualifier? ==> s.lower in words && (s.prerelease <==> IsPrerelease(s.lower))
  }

  lemma HeadOver(segments: seq<string>, words: iset<string>)
    requires Over(segments, words)
    ensures SlotOver(Head(segments), words)
  {
    if segments != [] && ParseU64(segments[0]) == None { LowerKeepsKind(segments[0]); }
  }

  lemma SlotsTransitive(a: Slot, b: Slot, c: Slot, words: iset<string>)
    requires PrereleasesFirst(words) && SlotOver(a, words) && SlotOver(b, words) && SlotOver(c, words)
    requires CompareSlots(a, b) != Greater && CompareSlots(b, c) != Greater
    ensures CompareSlots(a, c) != Greater
    ensures CompareSlots(a, b) == Less || CompareSlots(b, c) == Less ==> CompareSlots(a, c) == Less
  {
    if a.Qualifier? && b.Qualifier? { LexFlips(a.lower, b.lower); }
    if b.Qualifier? && c.Qualifier? { LexFlips(b.lower, c.lower); }
    if a.Qualifier? && b.Qualifier? && c.Qualifier? { LexTransitive(a.lower, b.lower, c.lower); }
  }

  lemma {:induction false} CompareTransitive(a: seq<string>, b: seq<string>, c: seq<string>, words: iset<string>)
    requires PrereleasesFirst(words) && Over(a, words) && Over(b, words) && Over(c, words)
    requires Compare(a, b) != Greater && Compare(b, c) != Greater
    ensures Compare(a, c) != Greater
    ensures Compare(a, b) == Less || Compare(b, c) == Less ==> Compare(a, c) == Less
  {
    HeadOver(a, words);
    HeadOver(b, words);
    HeadOver(c, words);
    SlotsTransitive(Head(a), Head(b), Head(c), words);
    if a != [] && b != [] && c != []
      && CompareSlots(Head(a), Head(b)) == Equal && CompareSlots(Head(b), Head(c)) == Equal {
      CompareTransitive(a[1..], b[1..], c[1..], words);
    }
  }

  ghost predicate TransitiveOver(words: iset<string>) {
    forall a, b, c | Over(Segments(a), words) && Over(Segments(b), words) && Over(Segments(c), words) ::
      Compare(Segments(a), Segments(b)) != Greater && Compare(Segments(b), Segments(c)) != Greater
      ==> Compare(Segments(a), Segments(c)) != Greater
  }

  /** A pre-release word `p` not below a release word `q` makes a cycle: `q <= p < end < q`. */
  lemma WordsOutOfOrder(p: string, q: string, words: iset<string>)
    requires Qualifiers(words) && p in words && q in words && IsPrerelease(p) && !IsPrerelease(q)
    requires Lex(p, q) != Less
    ensures !TransitiveOver(words)
  {
    var a, b := JoinSegments([q]), JoinSegments([p]);
    SegmentsOfJoin([q]);
    SegmentsOfJoin([p]);
    LexFlips(p, q);
    assert Segments("") == [];
    assert Over(Segments(a), words) && Over(Segments(b), words) && Over(Segments(""), words);
    assert Compare([q], [p]) != Greater && Compare([p], []) == Less && Compare([q], []) == Greater;
  }

  /**
    Over numbers and a set of words the comparison is a total preorder exactly when the pre-release
    words all sort before the others.
    */
  lemma TransitiveExactly(words: iset<string>)
    requires Qualifiers(words)
    ensures TransitiveOver(words) <==> PrereleasesFirst(words)
  {
    if PrereleasesFirst(words) {
      forall a, b, c | Over(Segments(a), words) && Over(Segments(b), words) && Over(Segments(c), words)
        && Compare(Segments(a), Segments(b)) != Greater && Compare(Segments(b), Segments(c)) != Greater
        ensures Compare(Segments(a), Segments(c)) != Greater
      {
        CompareTransitive(Segments(a), Segments(b), Segments(c), words);
      }
    } else {
      var p, q :| p in words && q in words && IsPrerelease(p) && !IsPrerelease(q) && Lex(p, q) != Less;
      WordsOutOfOrder(p, q, words);
    }
  }

  /** The cycle with words in use: `1-rc < 1 < 1-final < 1-rc`. */
  lemma CycleOfReleaseCandidates()
    ensures IsPrerelease("rc") && !IsPrerelease("final")
    ensures Compare(["1", "rc"], ["1"]) == Less
    ensures Compare(["1"], ["1", "final"]) == Less
    ensures Compare(["1", "final"], ["1", "rc"]) == Less
  {
    assert MARKERS[2] <= Lower("rc");
    assert Lower("final")[0] == 'f';
    assert ["1", "rc"][1..] == ["rc"] && ["1"][1..] == [] && ["1", "final"][1..] == ["final"];
    assert Lower("rc") == "rc" && Lower("final") == "final";
  }
}
