/**
  When a catalogue document may be split in two (`i18n/catalog.rs`): exactly when its first part is
  closed, appending a document merges its entries, so overlays may be installed piece by piece.
  */
module CatalogComposition {
  import opened Wrappers
  import opened Strings
  import opened CatalogReader
  import opened CatalogSyntax
  import opened Catalogs

  /** A one-line document that starts with a mark of its own and ends in a digit. */
  predicate Probe(b: string) {
    && '\n' !in b && |b| >= 2 && (b[0] == '#' || b[0] == 'K')
    && (b[|b| - 1] == '1' || b[|b| - 1] == '2')
  }

  const KEY: string := ['K']

  function KeyText(c: char): string {
    ['K', '=', c]
  }

  /** The text of the line under way, when a document ends without closing it. */
  function UnderWay(s: State, rest: string): string {
    if s.pending then s.logical + rest else rest
  }

  predicate InComment(s: State, rest: string) {
    !s.pending && rest != [] && Ignored(rest)
  }

  /** What follows the last line feed, without its leading blanks. */
  function LastLine(a: string): string {
    TrimStart(Rest(StripBom(a)))
  }

  // ---------- what a probe shows ----------

  lemma ProbeLine(r: string, b: string)
    requires '\n' !in r && Probe(b)
    ensures TrimmedLines(r + b) == [TrimStart(r) + b]
  {
    ProbeTrim(r, b);
    FindBehind(r, b);
    OneLine(r + b);
  }

  lemma ProbeTrim(r: string, b: string)
    requires Probe(b)
    ensures TrimLine(r + b) == TrimStart(r) + b && r + b != []
  {
    LastStays(r + b);
    TrimInFront(r, b);
  }

  lemma LastStays(s: string)
    requires s != [] && s[|s| - 1] != '\r'
    ensures StripCr(s) == s
  {
  }

  lemma ProbeContents(x: Syntax, a: string, b: string) returns (n: nat)
    requires Probe(b)
    ensures ContentsBy(x, a + b) == Finish(x, Step(x, AfterWhole(x, a), LastLine(a) + b, n))
  {
    var r := Rest(StripBom(a));
    n := |TrimmedLines(Whole(StripBom(a)))|;
    assert '\n' !in r by { RestHasNoLine(StripBom(a)); }
    ContentsAfterWhole(x, a, b);
    ProbeLine(r, b);
    ReadOne(x, AfterWhole(x, a), LastLine(a) + b, n);
  }

  lemma NotOpen(w: string, b: string)
    requires Probe(b)
    ensures !EndsOpen(w + b)
  {
  }

  lemma NotOpenAlone(b: string)
    requires Probe(b)
    ensures !EndsOpen(b)
  {
    assert [] + b == b;
    NotOpen([], b);
  }

  /** Behind an unclosed document a probe is swallowed by a comment or by the line under way. */
  lemma ProbeStep(x: Syntax, s: State, t: string, b: string, n: nat)
    requires Probe(b) && !x.open(UnderWay(s, t) + b) && (s.pending || t != [])
    ensures Finish(x, Step(x, s, t + b, n)).entries ==
      if InComment(s, t) then s.entries else Insert(s.entries, x.parse(UnderWay(s, t) + b))
  {
    if s.pending { Associates(s.logical, t, b); }
    if InComment(s, t) {
      StepIgnored(x, s, t + b, n);
    } else {
      StepComplete(x, s, t + b, UnderWay(s, t) + b, n);
    }
  }

  lemma ProbeEntries(x: Syntax, a: string, b: string)
    requires Probe(b) && (AfterWhole(x, a).pending || LastLine(a) != [])
    requires !x.open(UnderWay(AfterWhole(x, a), LastLine(a)) + b)
    ensures var s, t := AfterWhole(x, a), LastLine(a);
      ContentsBy(x, a + b).entries ==
        if InComment(s, t) then s.entries else Insert(s.entries, x.parse(UnderWay(s, t) + b))
  {
    var n := ProbeContents(x, a, b);
    ProbeStep(x, AfterWhole(x, a), LastLine(a), b, n);
  }

  lemma ProbeAlone(x: Syntax, b: string)
    requires Probe(b) && !x.open(b)
    ensures ContentsBy(x, b).entries == if b[0] == '#' then map[] else Insert(map[], x.parse(b))
  {
    assert StripBom(b) == b;
    assert [] + b == b && TrimStart([]) == [];
    ProbeLine([], b);
    ReadOne(x, EMPTY, b, 0);
    if b[0] == '#' { StepIgnored(x, EMPTY, b, 0); } else { StepComplete(x, EMPTY, b, b, 0); }
  }

  // ---------- the two probes ----------

  /** A logical line, given where it splits. */
  lemma ParsedAt(text: string, i: nat, k: string, v: string)
    requires Separator(text, false) == Some(i) && text[..i] == k && text[i + 1..] == v
    ensures ParseLogical(text) ==
      if Trim(Unescape(k)) == [] then NoKey else Entry(Trim(Unescape(k)), Unescape(Trim(v)))
  {
  }

  lemma ParsedTo(text: string, i: nat, k: string, v: string, key: string, value: string)
    requires Separator(text, false) == Some(i) && text[..i] == k && text[i + 1..] == v
    requires Trim(Unescape(k)) == key != [] && Unescape(Trim(v)) == value
    ensures ParseLogical(text) == Entry(key, value)
  {
  }

  lemma OneCharacter(c: char)
    requires !IsWhitespace(c) && c != '\\'
    ensures Trim([c]) == [c] == Unescape([c])
  {
    NothingToUnescape([c]);
  }

  lemma SeparatorSecond(b: string, k: char)
    requires |b| == 3 && b[0] == k && b[1] == '=' && k != '\\' && k != '='
    ensures Separator(b, false) == Some(1)
  {
    assert Separator(b[1..], false) == Some(0);
  }

  lemma OneCharacterLine(b: string, k: char, c: char)
    requires b == [k, '=', c] && k != '=' && k != '\\' && c != '\\' && !IsWhitespace(k) && !IsWhitespace(c)
    ensures ParseLogical(b) == Entry([k], [c])
  {
    assert b[..1] == [k] && b[1 + 1..] == [c];
    SeparatorSecond(b, k);
    OneCharacter(k);
    OneCharacter(c);
    ParsedTo(b, 1, [k], [c], [k], [c]);
  }

  lemma ProbeAloneEntry(x: Syntax, b: string, key: string, value: string)
    requires Probe(b) && !x.open(b) && b[0] == 'K' && x.parse(b) == Entry(key, value)
    ensures ContentsBy(x, b).entries == map[key := value]
  {
    ProbeAlone(x, b);
  }

  lemma KeyProbe(c: char)
    requires c == '1' || c == '2'
    ensures Probe(KeyText(c)) && EntriesOf(KeyText(c)) == map[KEY := [c]]
  {
    var b := KeyText(c);
    NotOpenAlone(b);
    OneCharacterLine(b, 'K', c);
    ProbeAloneEntry(PROPERTIES, b, KEY, [c]);
  }

  lemma MarkProbe(c: char)
    requires c == '1' || c == '2'
    ensures Probe(MARK + [c]) && EntriesOf(MARK + [c]) == map[]
  {
    var b := MARK + [c];
    NotOpenAlone(b);
    ProbeAlone(PROPERTIES, b);
  }

  lemma {:induction false} HashStays(w: string)
    ensures '#' in Unescape(w + "#")
    decreases |w|
  {
    var s := w + "#";
    if w == [] {
      NothingToUnescape("#");
      assert s == "#";
    } else if w[0] != '\\' {
      assert s[1..] == w[1..] + "#";
      HashStays(w[1..]);
    } else if |w| == 1 {
      assert s[1..] == "#" && Escape("#") == ("#", 1);
    } else {
      EscapeInFront(w[1..], "#");
      var taken := 1 + Escape(w[1..]).1;
      assert s[1..] == w[1..] + "#" && s[taken..] == w[taken..] + "#";
      HashStays(w[taken..]);
    }
  }

  lemma {:induction false} KeptAtStart(s: string, c: char)
    requires c in s && !IsWhitespace(c)
    ensures c in TrimStart(s)
  {
    if IsWhitespace(s[0]) {
      assert s == [s[0]] + s[1..];
      KeptAtStart(s[1..], c);
    }
  }

  lemma {:induction false} KeptAtEnd(s: string, c: char)
    requires c in s && !IsWhitespace(c)
    ensures c in TrimEnd(s)
    decreases |s|
  {
    if IsWhitespace(s[|s| - 1]) {
      assert s == s[..|s| - 1] + [s[|s| - 1]];
      KeptAtEnd(s[..|s| - 1], c);
    }
  }

  lemma TrimOfEnding(v: string, b: string)
    requires Probe(b)
    ensures Trim(v + b) == TrimStart(v) + b
  {
    assert TrimStart(v + b) == TrimStart(v) + b by { TrimInFront(v, b); }
    NothingToTrim(TrimStart(v), b);
  }

  lemma NothingToTrim(v: string, b: string)
    requires Probe(b)
    ensures TrimEnd(v + b) == v + b
  {
  }

  lemma MarkedAfterSeparator(w: string, i: nat, b: string)
    requires Separator(w, false) == Some(i) && Probe(b)
    ensures var key := Trim(Unescape(w[..i]));
      ParseLogical(w + b) == if key == [] then NoKey else Entry(key, Unescape(TrimStart(w[i + 1..]) + b))
  {
    var k, v := w[..i], w[i + 1..];
    assert (w + b)[..i] == k && (w + b)[i + 1..] == v + b;
    SeparatorInFront(w, false, b);
    ParsedAt(w + b, i, k, v + b);
    TrimOfEnding(v, b);
  }

  lemma MarkedSlices(w: string, text: string, c: char)
    requires text == w + (MARK + [c])
    ensures |w| + 1 < |text| && text[..|w| + 1] == w + "#" && text[|w| + 2..] == [c]
  {
  }

  lemma MarkedSeparator(w: string, text: string, c: char)
    requires Separator(w, false) == None && text == w + (MARK + [c])
    ensures Separator(text, false) == Some(|w| + 1)
  {
    Associates(w, MARK, [c]);
    SeparatorAtMark(w, false, c);
  }

  lemma MarkedWithoutSeparator(w: string, text: string, c: char)
    requires Separator(w, false) == None && (c == '1' || c == '2') && text == w + (MARK + [c])
    ensures ParseLogical(text) == Entry(Trim(Unescape(w + "#")), [c])
  {
    MarkedSlices(w, text, c);
    MarkedSeparator(w, text, c);
    HashKey(w);
    OneCharacter(c);
    ParsedTo(text, |w| + 1, w + "#", [c], Trim(Unescape(w + "#")), [c]);
  }

  lemma HashKey(w: string)
    ensures Trim(Unescape(w + "#")) != []
  {
    HashStays(w);
    KeptAtStart(Unescape(w + "#"), '#');
    KeptAtEnd(TrimStart(Unescape(w + "#")), '#');
  }

  /** The two endings give the line under way the same key and different values. */
  ghost predicate TwoValues(w: string, b: string, c: string) {
    var p, q := ParseLogical(w + b), ParseLogical(w + c);
    p.Entry? && q.Entry? && p.key == q.key && p.value != q.value
  }

  ghost predicate MarksTell(w: string) { TwoValues(w, MARK + ['1'], MARK + ['2']) }

  ghost predicate KeysSwallowed(w: string) {
    ParseLogical(w + KeyText('1')) == NoKey == ParseLogical(w + KeyText('2'))
  }

  lemma TellBehindSeparator(w: string, i: nat)
    requires Separator(w, false) == Some(i)
    ensures MarksTell(w) || KeysSwallowed(w)
  {
    if Trim(Unescape(w[..i])) == [] {
      MarkedAfterSeparator(w, i, KeyText('1'));
      MarkedAfterSeparator(w, i, KeyText('2'));
    } else {
      var v := TrimStart(w[i + 1..]);
      MarkedAfterSeparator(w, i, MARK + ['1']);
      MarkedAfterSeparator(w, i, MARK + ['2']);
      Associates(v, MARK, ['1']);
      Associates(v, MARK, ['2']);
      EndingsDiffer(v, '1', '2');
    }
  }

  lemma TellWithoutSeparator(w: string)
    requires Separator(w, false) == None
    ensures MarksTell(w)
  {
    MarkedWithoutSeparator(w, w + (MARK + ['1']), '1');
    MarkedWithoutSeparator(w, w + (MARK + ['2']), '2');
    assert ['1'][0] != ['2'][0];
  }

  /** Two probes that leave a trace: either marks with two values, or keys swallowed without any. */
  lemma ProbesTell(w: string)
    ensures MarksTell(w) || KeysSwallowed(w)
  {
    match Separator(w, false)
    case Some(i) => TellBehindSeparator(w, i);
    case None => TellWithoutSeparator(w);
  }

  lemma KeyMapsDiffer(e: Entries)
    ensures e + map[KEY := ['1']] != e + map[KEY := ['2']]
  {
    assert (e + map[KEY := ['1']])[KEY] == ['1'] && (e + map[KEY := ['2']])[KEY] == ['2'];
    assert ['1'][0] != ['2'][0];
  }

  lemma InsertsDiffer(e: Entries, p: Parsed, q: Parsed)
    requires p.Entry? && q.Entry? && p.key == q.key && p.value != q.value
    ensures Insert(e, p) != Insert(e, q)
  {
    assert Insert(e, p)[p.key] != Insert(e, q)[q.key];
  }

  ghost predicate MergesWrongly(a: string, b: string) {
    !StartsWithBom(b) && EntriesOf(a + b) != EntriesOf(a) + EntriesOf(b)
  }

  /** What is under way swallows both documents, so their entries cannot both come out. */
  lemma SwallowedShow(a: string, b: string, c: string, kept: Entries)
    requires Probe(b) && Probe(c) && EntriesOf(a + b) == kept == EntriesOf(a + c)
    requires EntriesOf(a) + EntriesOf(b) != EntriesOf(a) + EntriesOf(c)
    ensures MergesWrongly(a, b) || MergesWrongly(a, c)
  {
  }

  /** The two documents come out differently, though neither has an entry of its own. */
  lemma ValuesShow(a: string, b: string, c: string)
    requires Probe(b) && Probe(c) && EntriesOf(a + b) != EntriesOf(a + c)
    requires EntriesOf(b) == map[] == EntriesOf(c)
    ensures MergesWrongly(a, b) || MergesWrongly(a, c)
  {
  }

  /** Where the documents end up behind an unclosed one. */
  lemma SwallowedBehind(a: string, b: string)
    requires Probe(b) && (AfterWhole(PROPERTIES, a).pending || LastLine(a) != [])
    requires var s, t := AfterWhole(PROPERTIES, a), LastLine(a);
      InComment(s, t) || ParseLogical(UnderWay(s, t) + b) == NoKey
    ensures EntriesOf(a + b) == AfterWhole(PROPERTIES, a).entries
  {
    ProbeBehindOpen(a, b);
  }

  lemma ValuesBehind(a: string, b: string, c: string)
    requires Probe(b) && Probe(c) && (AfterWhole(PROPERTIES, a).pending || LastLine(a) != [])
    requires !InComment(AfterWhole(PROPERTIES, a), LastLine(a))
    requires TwoValues(UnderWay(AfterWhole(PROPERTIES, a), LastLine(a)), b, c)
    ensures EntriesOf(a + b) != EntriesOf(a + c)
  {
    var s, w := AfterWhole(PROPERTIES, a), UnderWay(AfterWhole(PROPERTIES, a), LastLine(a));
    ProbeBehindOpen(a, b);
    ProbeBehindOpen(a, c);
    InsertsDiffer(s.entries, ParseLogical(w + b), ParseLogical(w + c));
  }

  /** A document that is not closed merges wrongly with one of four one-line documents. */
  lemma OpenDoesNotCompose(a: string)
    requires !Closed(a)
    ensures exists b :: MergesWrongly(a, b)
  {
    NotBlankLine(a);
    var s, t := AfterWhole(PROPERTIES, a), LastLine(a);
    ProbesTell(UnderWay(s, t));
    if InComment(s, t) || KeysSwallowed(UnderWay(s, t)) {
      KeyProbe('1');
      KeyProbe('2');
      SwallowedBehind(a, KeyText('1'));
      SwallowedBehind(a, KeyText('2'));
      KeyMapsDiffer(EntriesOf(a));
      SwallowedShow(a, KeyText('1'), KeyText('2'), s.entries);
    } else {
      MarkProbe('1');
      MarkProbe('2');
      ValuesBehind(a, MARK + ['1'], MARK + ['2']);
      ValuesShow(a, MARK + ['1'], MARK + ['2']);
    }
  }

  lemma NotBlankLine(a: string)
    requires !Closed(a)
    ensures AfterWhole(PROPERTIES, a).pending || LastLine(a) != []
  {
  }

  lemma ProbeBehindOpen(a: string, b: string)
    requires Probe(b) && (AfterWhole(PROPERTIES, a).pending || LastLine(a) != [])
    ensures var s, t := AfterWhole(PROPERTIES, a), LastLine(a);
      EntriesOf(a + b) == if InComment(s, t) then s.entries else Insert(s.entries, ParseLogical(UnderWay(s, t) + b))
  {
    NotOpen(UnderWay(AfterWhole(PROPERTIES, a), LastLine(a)), b);
    ProbeEntries(PROPERTIES, a, b);
  }

  /**
    Reading a document in two parts gives the merge of the two readings, whatever the second part,
    exactly when the first part ends outside a continuation with only blanks after its last line feed.
    */
  lemma ComposesExactlyWhenClosed(a: string)
    ensures Composes(a) <==> Closed(a)
  {
    if Closed(a) {
      forall b | !StartsWithBom(b) ensures EntriesOf(a + b) == EntriesOf(a) + EntriesOf(b) { ClosedMerges(a, b); }
    } else {
      OpenDoesNotCompose(a);
      var b :| MergesWrongly(a, b);
    }
  }

  /** Installing two overlay texts one after the other is installing their concatenation. */
  lemma OverlaysConcatenate(overlay: Entries, a: string, b: string)
    requires Closed(a) && !StartsWithBom(b)
    ensures (overlay + EntriesOf(a)) + EntriesOf(b) == overlay + EntriesOf(a + b)
  {
    ClosedMerges(a, b);
    MergeAssociates(overlay, EntriesOf(a), EntriesOf(b));
  }

  lemma MergeAssociates(x: Entries, y: Entries, z: Entries)
    ensures (x + y) + z == x + (y + z)
  {
  }
}
