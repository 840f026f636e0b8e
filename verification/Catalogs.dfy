/** The catalogue parser and the overlay merge (`i18n/catalog.rs`). */
module Catalogs {
  import opened Wrappers
  import opened Strings
  import opened CatalogReader
  import opened CatalogSyntax

  // ---------- one logical line ----------

  function ParseLogical(text: string): Parsed {
    match Separator(text, false)
    case None => NoEntry
    case Some(i) =>
      var key := Trim(Unescape(text[..i]));
      if key == [] then NoKey else Entry(key, Unescape(Trim(text[i + 1..])))
  }

  method ParseEntry(text: string) returns (p: Parsed)
    ensures p == ParseLogical(text)
  {
    var at := SplitEntry(text);
    if at.None? { return NoEntry; }
    var unescaped := UnescapeText(text[..at.value]);
    var key := Trim(unescaped);
    if key == [] { return NoKey; }
    var value := UnescapeText(Trim(text[at.value + 1..]));
    p := Entry(key, value);
  }

  // ---------- the document ----------

  predicate EndsOpen(text: string) {
    TrailingBackslashes(text) % 2 == 1
  }

  const PROPERTIES := Syntax(ParseLogical, EndsOpen)

  /** A line as the state machine takes it: without a second carriage return and leading blanks. */
  function TrimLine(raw: string): string {
    TrimStart(StripCr(raw))
  }

  function TrimmedLines(text: string): seq<string> {
    TrimAll(Lines(text))
  }

  function TrimAll(lines: seq<string>): seq<string> {
    if lines == [] then [] else [TrimLine(lines[0])] + TrimAll(lines[1..])
  }

  function ContentsBy(x: Syntax, text: string): State {
    Finish(x, Read(x, EMPTY, TrimmedLines(StripBom(text)), 0))
  }

  function Contents(text: string): State {
    ContentsBy(PROPERTIES, text)
  }

  function EntriesOf(text: string): Entries {
    Contents(text).entries
  }

  method EnterParsed(s: State, p: Parsed) returns (next: State)
    ensures next == Enter(s, s.logical, s.start, p)
  {
    next := s.(pending := false);
    match p
    case NoEntry => next := next.(problems := next.problems + [NoSeparator(next.start, next.logical)]);
    case NoKey => next := next.(problems := next.problems + [EmptyKey(next.start)]);
    case Entry(key, value) =>
      if key in next.entries {
        next := next.(problems := next.problems + [Duplicate(next.start, key, next.entries[key])]);
      }
      next := next.(entries := next.entries[key := value]);
  }

  /** The rest of the loop body, once it is known whether the logical line goes on and how it parses. */
  method StepTrimmed(ghost x: Syntax, s: State, trimmed: string, n: nat, odd: bool, p: Parsed) returns (next: State)
    requires Extended(s, trimmed).Some? ==>
      var text := Extended(s, trimmed).value; odd == x.open(text) && p == x.parse(text) && (odd ==> text != [])
    ensures next == Step(x, s, trimmed, n)
  {
    next := s;
    if !next.pending {
      if Ignored(trimmed) { return; }
      next := next.(logical := trimmed, start := n + 1);
    } else {
      next := next.(logical := next.logical + trimmed);
    }
    if odd {
      next := next.(logical := next.logical[..|next.logical| - 1], pending := true);
      return;
    }
    next := EnterParsed(next, p);
  }

  method StepLine(x: Syntax, s: State, raw: string, n: nat) returns (next: State)
    requires x == PROPERTIES
    ensures next == Step(x, s, TrimLine(raw), n)
  {
    var trimmed := TrimStart(StripCr(raw));
    var odd, p := CountAndParse(x, if s.pending then s.logical + trimmed else trimmed);
    next := StepTrimmed(x, s, trimmed, n, odd, p);
  }

  method CountAndParse(ghost x: Syntax, logical: string) returns (odd: bool, p: Parsed)
    requires x == PROPERTIES
    ensures odd == x.open(logical) && p == x.parse(logical) && (odd ==> logical != [])
  {
    odd := TrailingBackslashes(logical) % 2 == 1;
    p := ParseEntry(logical);
  }

  lemma ReadOneMore(x: Syntax, s: State, lines: seq<string>, n: nat)
    requires n < |lines|
    ensures Read(x, s, TrimAll(lines[n..]), n) ==
      Read(x, Step(x, s, TrimLine(lines[n]), n), TrimAll(lines[n + 1..]), n + 1)
  {
    assert lines[n..][1..] == lines[n + 1..];
    ReadFirst(x, s, TrimLine(lines[n]), TrimAll(lines[n + 1..]), n);
  }

  method ReadLines(x: Syntax, lines: seq<string>) returns (s: State)
    requires x == PROPERTIES
    ensures s == Read(x, EMPTY, TrimAll(lines), 0)
  {
    s := EMPTY;
    assert lines[0..] == lines;
    for n := 0 to |lines|
      invariant Read(x, s, TrimAll(lines[n..]), n) == Read(x, EMPTY, TrimAll(lines), 0)
    {
      ReadOneMore(x, s, lines, n);
      s := StepLine(x, s, lines[n], n);
    }
  }

  method FinishReading(x: Syntax, s: State) returns (done: State)
    requires x == PROPERTIES
    ensures done == Finish(x, s)
  {
    done := s;
    if done.pending {
      var _, p := CountAndParse(x, done.logical);
      done := done.(problems := done.problems + [Dangling]);
      if p.Entry? { done := done.(entries := done.entries[p.key := p.value]); }
    }
  }

  method ParseText(text: string) returns (entries: Entries, problems: seq<Problem>)
    ensures entries == EntriesOf(text) && problems == Contents(text).problems
  {
    var s := ReadLines(PROPERTIES, Lines(StripBom(text)));
    s := FinishReading(PROPERTIES, s);
    entries, problems := s.entries, s.problems;
  }

  /** A parsed catalogue, and the overlay catalogues are merged into. */
  class Catalog {
    var entries: Entries
    var problems: seq<Problem>

    constructor Parse(text: string)
      ensures entries == EntriesOf(text) && problems == Contents(text).problems
    {
      var e, p := ParseText(text);
      entries, problems := e, p;
    }

    /** Every entry of `other` is inserted, whatever the order of its table. */
    method Merge(other: Catalog)
      modifies this
      ensures entries == old(entries) + old(other.entries) && problems == old(problems)
    {
      var source := other.entries;
      var keys := source.Keys;
      while keys != {}
        invariant keys <= source.Keys
        invariant entries == old(entries) + map k | k in source && k !in keys :: source[k]
        invariant problems == old(problems)
        decreases keys
      {
        var k :| k in keys;
        entries := entries[k := source[k]];
        keys := keys - {k};
      }
      assert (map k | k in source && k !in keys :: source[k]) == source;
    }
  }

  /** `install_overlay_text` for the overlay of one language. */
  method InstallOverlayText(overlay: Catalog, text: string) returns (n: nat)
    modifies overlay
    ensures overlay.entries == old(overlay.entries) + EntriesOf(text)
    ensures n == |EntriesOf(text)|
  {
    var parsed := new Catalog.Parse(text);
    n := |parsed.entries|;
    overlay.Merge(parsed);
  }

  // ---------- when appending a document merges it ----------

  predicate StartsWithBom(text: string) {
    text != [] && text[0] == '\U{FEFF}'
  }

  /** The state after the complete lines of a document. */
  function AfterWhole(x: Syntax, text: string): State {
    Read(x, EMPTY, TrimmedLines(Whole(StripBom(text))), 0)
  }

  /** No continuation is open at the last line feed, and only blanks follow it. */
  predicate Closed(text: string) {
    !AfterWhole(PROPERTIES, text).pending && Blank(Rest(StripBom(text)))
  }

  ghost predicate Composes(a: string) {
    forall b | !StartsWithBom(b) :: EntriesOf(a + b) == EntriesOf(a) + EntriesOf(b)
  }

  lemma {:induction false} TrimAllConcat(a: seq<string>, b: seq<string>)
    ensures TrimAll(a + b) == TrimAll(a) + TrimAll(b)
  {
    if a == [] {
      assert a + b == b && TrimAll(a) == [];
      assert TrimAll(a) + TrimAll(b) == TrimAll(b);
    } else {
      var first, rest := a[0], a[1..];
      assert (a + b)[0] == first && (a + b)[1..] == rest + b;
      TrimAllConcat(rest, b);
      Associates([TrimLine(first)], TrimAll(rest), TrimAll(b));
    }
  }

  lemma BomInFront(a: string, b: string)
    requires !StartsWithBom(b)
    ensures StripBom(a + b) == StripBom(a) + b
  {
    if a == "" { assert a + b == b; } else { assert (a + b)[1..] == a[1..] + b; }
  }

  /** A document followed by another, from the state after its complete lines. */
  lemma ContentsAfterWhole(x: Syntax, a: string, b: string)
    requires !StartsWithBom(b)
    ensures ContentsBy(x, a + b) ==
      Finish(x, Read(x, AfterWhole(x, a), TrimmedLines(Rest(StripBom(a)) + b), |TrimmedLines(Whole(StripBom(a)))|))
  {
    var text := StripBom(a);
    BomInFront(a, b);
    SplitDocument(x, text, b);
  }

  lemma TrimmedOfWhole(text: string, more: string)
    ensures TrimmedLines(Whole(text) + more) == TrimmedLines(Whole(text)) + TrimmedLines(more)
  {
    LinesOfWhole(text, more);
    TrimAllConcat(Lines(Whole(text)), Lines(more));
  }

  lemma Regroup(text: string, b: string)
    ensures text + b == Whole(text) + (Rest(text) + b)
  {
    WholeAndRest(text);
    Associates(Whole(text), Rest(text), b);
  }

  lemma SplitDocument(x: Syntax, text: string, b: string)
    ensures Read(x, EMPTY, TrimmedLines(text + b), 0) ==
      Read(x, Read(x, EMPTY, TrimmedLines(Whole(text)), 0), TrimmedLines(Rest(text) + b), |TrimmedLines(Whole(text))|)
  {
    var whole, more := TrimmedLines(Whole(text)), TrimmedLines(Rest(text) + b);
    assert TrimmedLines(text + b) == whole + more by {
      Regroup(text, b);
      TrimmedOfWhole(text, Rest(text) + b);
    }
    ReadSplit(x, TrimmedLines(text + b), whole, more);
  }

  // ---------- blanks in front of a line ----------

  lemma BlankTrims(s: string)
    requires Blank(s)
    ensures TrimStart(s) == [] && Blank(StripCr(s))
  {
  }

  lemma {:induction false} TrimInFront(r: string, s: string)
    ensures Blank(r) ==> TrimStart(r + s) == TrimStart(s)
    ensures s != [] && !IsWhitespace(s[0]) ==> TrimStart(r + s) == TrimStart(r) + s
  {
    if r == [] {
      assert r + s == s;
    } else {
      assert (r + s)[1..] == r[1..] + s && r == [r[0]] + r[1..];
      TrimInFront(r[1..], s);
    }
  }

  lemma StripCrBehind(r: string, s: string)
    requires s != []
    ensures StripCr(r + s) == r + StripCr(s)
  {
  }

  lemma BlankTrimsLine(r: string)
    requires Blank(r)
    ensures TrimLine(r) == [] && TrimLine(StripCr(r)) == []
  {
    BlankTrims(r);
    BlankTrims(StripCr(r));
    BlankTrims(StripCr(StripCr(r)));
  }

  /** Blanks in front of a line change nothing. */
  lemma BlankInFront(r: string, s: string)
    requires Blank(r)
    ensures TrimLine(r + s) == TrimLine(s)
  {
    if s == [] {
      assert r + s == r;
      BlankTrimsLine(r);
    } else {
      StripCrBehind(r, s);
      TrimInFront(r, StripCr(s));
    }
  }

  lemma BlankInFrontOfLine(r: string, s: string)
    requires Blank(r)
    ensures TrimLine(StripCr(r + s)) == TrimLine(StripCr(s))
  {
    if s == [] {
      assert r + s == r;
      BlankTrimsLine(r);
    } else {
      StripCrBehind(r, s);
      BlankInFront(r, StripCr(s));
    }
  }

  lemma FindBehind(r: string, b: string)
    requires '\n' !in r
    ensures Find(r + b, '\n') == match Find(b, '\n') case Some(i) => Some(|r| + i) case None => None
  {
    match Find(b, '\n')
    case Some(i) =>
      assert (r + b)[..|r| + i] == r + b[..i];
      FindIs(r + b, '\n', |r| + i);
    case None =>
      assert forall c | c in r + b :: c in r || c in b;
  }

  lemma SlicesBehind(r: string, b: string, i: nat, t: string, k: nat)
    requires i < |b| && t == r + b && k == |r| + i
    ensures t[..k] == r + b[..i] && t[k + 1..] == b[i + 1..]
  {
  }

  lemma BlankBeforeFirstLine(r: string, b: string, i: nat, t: string, k: nat)
    requires Blank(r) && '\n' !in r && t == r + b && k == |r| + i
    requires Find(b, '\n') == Some(i) && Find(t, '\n') == Some(k)
    ensures TrimmedLines(t) == TrimmedLines(b)
  {
    SlicesBehind(r, b, i, t, k);
    BlankInFrontOfLine(r, b[..i]);
    SameFromFirstLine(t, k, b, i);
  }

  lemma SameFromFirstLine(t: string, k: nat, b: string, i: nat)
    requires Find(t, '\n') == Some(k) && Find(b, '\n') == Some(i) && t[k + 1..] == b[i + 1..]
    requires TrimLine(StripCr(t[..k])) == TrimLine(StripCr(b[..i]))
    ensures TrimmedLines(t) == TrimmedLines(b)
  {
    LinesFrom(t, k);
    LinesFrom(b, i);
  }

  lemma LinesFrom(s: string, i: nat)
    requires Find(s, '\n') == Some(i)
    ensures TrimmedLines(s) == [TrimLine(StripCr(s[..i]))] + TrimmedLines(s[i + 1..])
  {
    TrimFirst(StripCr(s[..i]), Lines(s[i + 1..]));
  }

  /** Blanks in front of a document do not show in its lines. */
  lemma BlankBeforeLines(r: string, b: string)
    requires Blank(r) && '\n' !in r && b != []
    ensures TrimmedLines(r + b) == TrimmedLines(b)
  {
    match Find(b, '\n')
    case Some(i) =>
      FindBehind(r, b);
      BlankBeforeFirstLine(r, b, i, r + b, |r| + i);
    case None =>
      FindBehind(r, b);
      BlankInFront(r, b);
      OneLine(r + b);
      OneLine(b);
  }

  lemma OneLine(s: string)
    requires s != [] && Find(s, '\n') == None
    ensures TrimmedLines(s) == [TrimLine(s)]
  {
    TrimFirst(s, []);
    assert [s] + [] == [s];
  }

  lemma TrimFirst(line: string, more: seq<string>)
    ensures TrimAll([line] + more) == [TrimLine(line)] + TrimAll(more)
  {
    assert ([line] + more)[1..] == more;
  }

  lemma BlankLines(r: string)
    requires Blank(r) && '\n' !in r
    ensures TrimmedLines(r) == if r == [] then [] else [[]]
  {
    assert Find(r, '\n') == None;
    if r != [] {
      OneLine(r);
      BlankTrimsLine(r);
    }
  }

  /** From a closed state, blanks and a document read as the document alone, over what was there. */
  lemma BlankThenDocument(x: Syntax, s: State, r: string, b: string, n: nat)
    requires !s.pending && Blank(r) && '\n' !in r
    ensures Like(Read(x, s, TrimmedLines(r + b), n), Read(x, EMPTY, TrimmedLines(b), 0), s.entries)
  {
    assert s.entries == s.entries + EMPTY.entries;
    if b == [] {
      assert r + b == r && Lines(b) == [];
      BlankLines(r);
      if r != [] { ReadOne(x, s, [], n); }
    } else {
      BlankBeforeLines(r, b);
      ReadLike(x, s, EMPTY, s.entries, TrimmedLines(b), n, 0);
    }
  }

  lemma ClosedComposes(x: Syntax, a: string, b: string)
    requires !AfterWhole(x, a).pending && Blank(Rest(StripBom(a))) && !StartsWithBom(b)
    ensures ContentsBy(x, a + b).entries == AfterWhole(x, a).entries + ContentsBy(x, b).entries
  {
    var s, r, n := AfterWhole(x, a), Rest(StripBom(a)), |TrimmedLines(Whole(StripBom(a)))|;
    RestHasNoLine(StripBom(a));
    ContentsAfterWhole(x, a, b);
    BlankThenDocument(x, s, r, b, n);
    FinishLike(x, Read(x, s, TrimmedLines(r + b), n), Read(x, EMPTY, TrimmedLines(b), 0), s.entries);
  }

  lemma ClosedAlone(x: Syntax, a: string)
    requires !AfterWhole(x, a).pending && Blank(Rest(StripBom(a)))
    ensures ContentsBy(x, a).entries == AfterWhole(x, a).entries
  {
    assert a + [] == a;
    ClosedComposes(x, a, []);
    NothingRead(x);
    NothingMerged(AfterWhole(x, a).entries);
  }

  lemma NothingMerged(e: Entries)
    ensures e + map[] == e
  {
  }

  lemma NothingRead(x: Syntax)
    ensures ContentsBy(x, []).entries == map[]
  {
    assert TrimmedLines([]) == [];
  }

  /** A closed document and what follows it: the entries are merged, the second document winning. */
  lemma ClosedMerges(a: string, b: string)
    requires Closed(a) && !StartsWithBom(b)
    ensures EntriesOf(a + b) == EntriesOf(a) + EntriesOf(b)
  {
    ClosedComposes(PROPERTIES, a, b);
    ClosedAlone(PROPERTIES, a);
  }
}
