/**
  What the Maven comparison says, position by position (`launch/classpath.rs`): which of two versions is
  the lower one is decided at the first place where they differ.
  */
module VersionOrder {
  import opened Wrappers
  import opened MavenVersions

  // ---------- texts ----------

  /** The parts of a version written with the four separators, `seps[k]` behind part `k`. */
  function Written(parts: seq<string>, seps: string): string
    requires |seps| == |parts|
  {
    if parts == [] then "" else parts[0] + [seps[0]] + Written(parts[1..], seps[1..])
  }

  predicate FourSeparators(seps: string) {
    forall k | 0 <= k < |seps| :: seps[k] in {'.', '-', '_', '+'}
  }

  predicate SeparatorFree(part: string) {
    forall c | c in part :: c !in {'.', '-', '_', '+'}
  }

  function WithoutEmpty(parts: seq<string>): seq<string> {
    if parts == [] then [] else (if parts[0] == "" then [] else [parts[0]]) + WithoutEmpty(parts[1..])
  }

  lemma {:induction false} SplitPart(current: string, part: string, sep: char, rest: string)
    requires SeparatorFree(part) && sep in {'.', '-', '_', '+'}
    ensures SplitFrom(current, part + [sep] + rest) == Nonempty(current + part) + SplitFrom([], rest)
    decreases |part|
  {
    var s := part + [sep] + rest;
    if part == [] {
      assert s[1..] == rest && current + part == current;
    } else {
      assert s[1..] == part[1..] + [sep] + rest && part[0] in part;
      assert current + part == current + [part[0]] + part[1..];
      forall c | c in part[1..] ensures c !in {'.', '-', '_', '+'} { assert c in part; }
      SplitPart(current + [part[0]], part[1..], sep, rest);
    }
  }

  lemma {:induction false} SplitLastPart(current: string, part: string)
    requires SeparatorFree(part)
    ensures SplitFrom(current, part) == Nonempty(current + part)
    decreases |part|
  {
    if part == [] {
      assert current + part == current;
    } else {
      assert part[0] in part;
      assert current + part == current + [part[0]] + part[1..];
      forall c | c in part[1..] ensures c !in {'.', '-', '_', '+'} { assert c in part; }
      SplitLastPart(current + [part[0]], part[1..]);
    }
  }

  /** A version splits at `.`, `-`, `_` and `+` and nowhere else, and empty parts do not count. */
  lemma {:induction false} SegmentsOfWritten(parts: seq<string>, seps: string, last: string)
    requires |seps| == |parts| && FourSeparators(seps) && SeparatorFree(last)
    requires forall k | 0 <= k < |parts| :: SeparatorFree(parts[k])
    ensures Segments(Written(parts, seps) + last) == WithoutEmpty(parts + [last])
  {
    if parts == [] {
      SplitLastPart([], last);
      assert [] + last == last && parts + [last] == [last] && [last][1..] == [];
    } else {
      var rest := Written(parts[1..], seps[1..]) + last;
      assert Written(parts, seps) + last == parts[0] + [seps[0]] + rest;
      SplitPart([], parts[0], seps[0], rest);
      assert [] + parts[0] == parts[0];
      SegmentsOfWritten(parts[1..], seps[1..], last);
      assert (parts + [last])[1..] == parts[1..] + [last];
    }
  }

  /** The decimal digits of a number. */
  function Digits(n: nat): string {
    if n < 10 then [('0' as int + n) as char] else Digits(n / 10) + [('0' as int + n % 10) as char]
  }

  predicate AllDigits(s: string) {
    forall k | 0 <= k < |s| :: '0' <= s[k] <= '9'
  }

  lemma {:induction false} DigitsRead(n: nat)
    ensures Digits(n) != [] && AllDigits(Digits(n)) && Decimal(Digits(n)) == n
  {
    if n < 10 {
      assert Digits(n)[..0] == [];
    } else {
      DigitsRead(n / 10);
      assert Digits(n)[..|Digits(n)| - 1] == Digits(n / 10);
    }
  }

  lemma {:induction false} LeadingZero(s: string)
    requires AllDigits(s)
    ensures AllDigits("0" + s) && Decimal("0" + s) == Decimal(s)
  {
    var t := "0" + s;
    if s == [] {
      assert t[..0] == [];
    } else {
      LeadingZero(s[..|s| - 1]);
      assert t[..|t| - 1] == "0" + s[..|s| - 1];
    }
  }

  /** A segment is a number exactly when it is the digits of a 64-bit one, perhaps behind zeros. */
  lemma NumberOfDigits(n: nat)
    ensures ParseU64(Digits(n)) == if n <= 0xFFFF_FFFF_FFFF_FFFF then Some(n) else None
  {
    DigitsRead(n);
  }

  lemma NumberBehindZero(s: string)
    requires AllDigits(s) && s != []
    ensures ParseU64("0" + s) == ParseU64(s)
  {
    LeadingZero(s);
  }

  lemma NoNumber(s: string)
    requires s == [] || !AllDigits(s)
    ensures ParseU64(s) == None
  {
  }

  /** `c` in lower case, over the 26 letters. */
  predicate SameLetter(c: char, lower: char) {
    c == lower || ('a' <= lower <= 'z' && c as int + 32 == lower as int)
  }

  predicate OpensWith(segment: string, word: string) {
    |word| <= |segment| && forall k | 0 <= k < |word| :: SameLetter(segment[k], word[k])
  }

  /** The pre-release words, in any case and with anything behind them, and no other segment. */
  lemma PrereleaseExactly(segment: string)
    ensures IsPrerelease(segment) <==>
      || OpensWith(segment, "alpha") || OpensWith(segment, "beta") || OpensWith(segment, "rc")
      || OpensWith(segment, "snapshot") || OpensWith(segment, "pre") || OpensWith(segment, "m")
  {
    PrefixIsOpening(segment, "alpha");
    PrefixIsOpening(segment, "beta");
    PrefixIsOpening(segment, "rc");
    PrefixIsOpening(segment, "snapshot");
    PrefixIsOpening(segment, "pre");
    PrefixIsOpening(segment, "m");
    MarkersAre(segment);
  }

  predicate LetterWord(word: string) {
    word != [] && forall k | 0 <= k < |word| :: 'a' <= word[k] <= 'z'
  }

  lemma PrefixIsOpening(segment: string, word: string)
    requires LetterWord(word)
    ensures word <= Lower(segment) <==> OpensWith(segment, word)
    ensures OpensWith(segment, word) ==> ParseU64(segment) == None
  {
    if OpensWith(segment, word) {
      assert SameLetter(segment[0], word[0]);
      assert word == Lower(segment)[..|word|];
    }
    if word <= Lower(segment) {
      forall k | 0 <= k < |word| ensures SameLetter(segment[k], word[k]) { assert word[k] == Lower(segment)[k]; }
    }
  }

  lemma MarkersAre(segment: string)
    ensures (exists k | 0 <= k < |MARKERS| :: MARKERS[k] <= Lower(segment)) <==>
      || "alpha" <= Lower(segment) || "beta" <= Lower(segment) || "rc" <= Lower(segment)
      || "snapshot" <= Lower(segment) || "pre" <= Lower(segment) || "m" <= Lower(segment)
  {
    assert MARKERS[0] == "alpha" && MARKERS[1] == "beta" && MARKERS[2] == "rc";
    assert MARKERS[3] == "snapshot" && MARKERS[4] == "pre" && MARKERS[5] == "m";
  }

  // ---------- the first difference ----------

  /** Two segments that count the same: equal in value, or equal but for case. */
  predicate SameSegment(x: string, y: string) {
    if ParseU64(x).Some? || ParseU64(y).Some? then ParseU64(x) == ParseU64(y)
    else |x| == |y| && forall k | 0 <= k < |x| :: LowerChar(x[k]) == LowerChar(y[k])
  }

  /** The first character in which two words differ, or the end of the shorter one, puts `x` first. */
  predicate WordBelowAt(x: string, y: string, j: nat) {
    && j <= |x| && j < |y|
    && (forall k | 0 <= k < j :: LowerChar(x[k]) == LowerChar(y[k]))
    && (j < |x| ==> LowerChar(x[j]) < LowerChar(y[j]))
  }

  predicate WordBelow(x: string, y: string) {
    exists j | 0 <= j < |y| :: WordBelowAt(x, y, j)
  }

  /** Of two segments in one place: the smaller number, the word against a number, the word that sorts first. */
  predicate SegmentBelow(x: string, y: string) {
    match (ParseU64(x), ParseU64(y))
    case (Some(m), Some(n)) => m < n
    case (Some(_), None) => false
    case (None, Some(_)) => true
    case (None, None) => WordBelow(x, y)
  }

  /** `a` and `b` are the same up to place `i`, and there `a` is below `b`. */
  predicate BelowAt(a: seq<string>, b: seq<string>, i: nat) {
    && i <= |a| && i <= |b| && (i < |a| || i < |b|)
    && (forall k | 0 <= k < i :: SameSegment(a[k], b[k]))
    && if i < |a| && i < |b| then SegmentBelow(a[i], b[i])
       else if i < |a| then IsPrerelease(a[i])
       else !IsPrerelease(b[i])
  }

  lemma {:induction false} LexIsWordBelow(x: string, y: string)
    ensures Lex(Lower(x), Lower(y)) == Less <==> WordBelow(x, y)
  {
    if x == [] {
      if y != [] { assert WordBelowAt(x, y, 0); }
    } else if y != [] {
      assert Lower(x)[1..] == Lower(x[1..]) && Lower(y)[1..] == Lower(y[1..]);
      LexIsWordBelow(x[1..], y[1..]);
      if LowerChar(x[0]) == LowerChar(y[0]) {
        WordBelowStep(x, y);
      } else if LowerChar(x[0]) < LowerChar(y[0]) {
        assert WordBelowAt(x, y, 0);
      } else {
        forall j | 0 <= j < |y| ensures !WordBelowAt(x, y, j) {}
      }
    }
  }

  lemma WordBelowStep(x: string, y: string)
    requires x != [] && y != [] && LowerChar(x[0]) == LowerChar(y[0])
    ensures WordBelow(x, y) <==> WordBelow(x[1..], y[1..])
  {
    if WordBelow(x, y) {
      var j :| 0 <= j < |y| && WordBelowAt(x, y, j);
      assert WordBelowAt(x[1..], y[1..], j - 1);
    }
    if WordBelow(x[1..], y[1..]) {
      var j :| 0 <= j < |y[1..]| && WordBelowAt(x[1..], y[1..], j);
      forall k | 0 <= k < j + 1 ensures LowerChar(x[k]) == LowerChar(y[k]) {
        if k > 0 { assert x[k] == x[1..][k - 1] && y[k] == y[1..][k - 1]; }
      }
      assert WordBelowAt(x, y, j + 1);
    }
  }

  lemma SlotsBelow(x: string, y: string)
    ensures CompareSlots(SlotOf(x), SlotOf(y)) == Less <==> SegmentBelow(x, y)
    ensures CompareSlots(SlotOf(x), SlotOf(y)) == Equal <==> SameSegment(x, y)
  {
    LexIsWordBelow(x, y);
    LexFlips(Lower(x), Lower(y));
    if forall k | 0 <= k < |x| :: |x| == |y| && LowerChar(x[k]) == LowerChar(y[k]) {
      assert |x| == |y| ==> Lower(x) == Lower(y);
    }
    if Lower(x) == Lower(y) {
      forall k | 0 <= k < |x| ensures LowerChar(x[k]) == LowerChar(y[k]) { assert Lower(x)[k] == Lower(y)[k]; }
    }
  }

  lemma BelowStep(a: seq<string>, b: seq<string>, i: nat)
    requires a != [] && b != [] && SameSegment(a[0], b[0])
    ensures BelowAt(a, b, i + 1) <==> BelowAt(a[1..], b[1..], i)
    ensures !BelowAt(a, b, 0)
  {
    if BelowAt(a[1..], b[1..], i) {
      forall k | 0 <= k < i + 1 ensures SameSegment(a[k], b[k]) {
        if k > 0 { assert a[k] == a[1..][k - 1] && b[k] == b[1..][k - 1]; }
      }
    }
    SlotsBelow(a[0], b[0]);
  }

  /** `a` is lower than `b` exactly when, at the first place where they differ, it is below. */
  lemma {:induction false} LowerExactly(a: seq<string>, b: seq<string>)
    ensures Compare(a, b) == Less <==> exists i: nat :: BelowAt(a, b, i)
  {
    if a != [] && b != [] {
      SlotsBelow(a[0], b[0]);
      if SameSegment(a[0], b[0]) {
        LowerExactly(a[1..], b[1..]);
        LowerBehindSame(a, b);
      } else {
        if SegmentBelow(a[0], b[0]) { assert BelowAt(a, b, 0); }
      }
    } else {
      NumbersAreNotMarkers(if a != [] then a[0] else if b != [] then b[0] else "");
      if Compare(a, b) == Less { assert BelowAt(a, b, 0); }
    }
  }

  lemma LowerBehindSame(a: seq<string>, b: seq<string>)
    requires a != [] && b != [] && SameSegment(a[0], b[0])
    ensures (exists i: nat :: BelowAt(a, b, i)) <==> exists i: nat :: BelowAt(a[1..], b[1..], i)
  {
    if i: nat :| BelowAt(a, b, i) {
      BelowStep(a, b, 0);
      var j: nat := i - 1;
      BelowStep(a, b, j);
      assert BelowAt(a[1..], b[1..], j);
    }
    if i: nat :| BelowAt(a[1..], b[1..], i) {
      BelowStep(a, b, i);
      assert BelowAt(a, b, i + 1);
    }
  }

  /** Behind a common beginning the smaller number makes the lower version, whatever follows. */
  lemma NumberDecides(front: seq<string>, m: nat, n: nat, s: seq<string>, t: seq<string>)
    requires m < n <= 0xFFFF_FFFF_FFFF_FFFF
    ensures Compare(front + [Digits(m)] + s, front + [Digits(n)] + t) == Less
    ensures Compare(front + [Digits(n)] + t, front + [Digits(m)] + s) == Greater
  {
    var a, b := front + [Digits(m)] + s, front + [Digits(n)] + t;
    NumberOfDigits(m);
    NumberOfDigits(n);
    assert BelowAt(a, b, |front|);
    LowerExactly(a, b);
    Antisymmetric(a, b);
  }

  // ---------- the documented examples, for every version in front ----------

  /** One more part behind a separator is one more segment. */
  lemma {:induction false} SplitOneMore(current: string, v: string, sep: char, part: string)
    requires IsSeparator(sep) && IsSegment(part)
    ensures SplitFrom(current, v + [sep] + part) == SplitFrom(current, v) + [part]
    decreases |v|
  {
    var s := v + [sep] + part;
    if v == [] {
      assert s[1..] == part && [] + part == part;
      SplitLastPart([], part);
    } else {
      assert s[1..] == v[1..] + [sep] + part;
      SplitOneMore(if IsSeparator(v[0]) then [] else current + [v[0]], v[1..], sep, part);
    }
  }

  /** `1.10 > 1.9`: numbers behind the same beginning compare by value, however many digits they have. */
  lemma NumbersByValue(v: string, sep: char, m: nat, n: nat)
    requires sep in {'.', '-', '_', '+'} && m < n <= 0xFFFF_FFFF_FFFF_FFFF
    ensures Compare(Segments(v + [sep] + Digits(m)), Segments(v + [sep] + Digits(n))) == Less
    ensures Compare(Segments(v + [sep] + Digits(n)), Segments(v + [sep] + Digits(m))) == Greater
  {
    DigitsRead(m);
    DigitsRead(n);
    SplitOneMore([], v, sep, Digits(m));
    SplitOneMore([], v, sep, Digits(n));
    var front := Segments(v);
    NumberDecides(front, m, n, [], []);
    assert front + [Digits(m)] + [] == front + [Digits(m)] && front + [Digits(n)] + [] == front + [Digits(n)];
  }

  /** `1.2.1 > 1.2`: a further number, or any word that marks no pre-release, makes the version higher. */
  lemma LongerIsHigher(v: string, sep: char, part: string)
    requires sep in {'.', '-', '_', '+'} && IsSegment(part) && !IsPrerelease(part)
    ensures Compare(Segments(v + [sep] + part), Segments(v)) == Greater
  {
    SplitOneMore([], v, sep, part);
    assert BelowAt(Segments(v), Segments(v) + [part], |Segments(v)|);
    LowerExactly(Segments(v), Segments(v) + [part]);
    Antisymmetric(Segments(v), Segments(v) + [part]);
  }

  /** `1.2 > 1.2-beta`: a pre-release is lower than its release. */
  lemma PrereleaseIsLower(v: string, sep: char, word: string)
    requires sep in {'.', '-', '_', '+'} && IsSegment(word) && IsPrerelease(word)
    ensures Compare(Segments(v + [sep] + word), Segments(v)) == Less
  {
    SplitOneMore([], v, sep, word);
    assert BelowAt(Segments(v) + [word], Segments(v), |Segments(v)|);
    LowerExactly(Segments(v) + [word], Segments(v));
  }

  /** A number outranks any word in its place, whatever follows either. */
  lemma NumberOutranksWord(front: seq<string>, n: nat, word: string, s: seq<string>, t: seq<string>)
    requires n <= 0xFFFF_FFFF_FFFF_FFFF && ParseU64(word) == None
    ensures Compare(front + [word] + s, front + [Digits(n)] + t) == Less
  {
    NumberOfDigits(n);
    assert BelowAt(front + [word] + s, front + [Digits(n)] + t, |front|);
    LowerExactly(front + [word] + s, front + [Digits(n)] + t);
  }
}
