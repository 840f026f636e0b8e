/**
  The line-joining state machine of the catalogue parser (`i18n/catalog.rs`), with what it asks of a
  logical line kept abstract.
  */
module CatalogReader {
  import opened Wrappers

  datatype Problem =
    | EmptyKey(line: nat)
    | Duplicate(line: nat, key: string, previous: string)
    | NoSeparator(line: nat, text: string)
    | Dangling

  type Entries = map<string, string>

  datatype Parsed = NoEntry | NoKey | Entry(key: string, value: string)

  /** How one logical line parses, and whether it asks for another physical line. */
  datatype Syntax = Syntax(parse: string -> Parsed, open: string -> bool)

  datatype State = State(entries: Entries, problems: seq<Problem>, logical: string, start: nat, pending: bool)

  const EMPTY := State(map[], [], [], 0, false)

  predicate Ignored(trimmed: string) {
    trimmed == [] || trimmed[0] == '#' || trimmed[0] == '!'
  }

  /** The logical line after one more physical one; `None` when the line is skipped. */
  function Extended(s: State, trimmed: string): Option<string> {
    if s.pending then Some(s.logical + trimmed)
    else if Ignored(trimmed) then None
    else Some(trimmed)
  }

  function Enter(s: State, text: string, start: nat, p: Parsed): State {
    match p
    case NoEntry => State(s.entries, s.problems + [NoSeparator(start, text)], text, start, false)
    case NoKey => State(s.entries, s.problems + [EmptyKey(start)], text, start, false)
    case Entry(key, value) =>
      State(s.entries[key := value],
        if key in s.entries then s.problems + [Duplicate(start, key, s.entries[key])] else s.problems,
        text, start, false)
  }

  /** One physical line, already rid of its line end and its leading blanks. */
  function Step(x: Syntax, s: State, trimmed: string, n: nat): State {
    match Extended(s, trimmed)
    case None => s
    case Some(text) =>
      var start := if s.pending then s.start else n + 1;
      if x.open(text) && text != [] then State(s.entries, s.problems, text[..|text| - 1], start, true)
      else Enter(s, text, start, x.parse(text))
  }

  function Read(x: Syntax, s: State, lines: seq<string>, n: nat): State
    decreases |lines|
  {
    if lines == [] then s else Read(x, Step(x, s, lines[0], n), lines[1..], n + 1)
  }

  /** The end of the document: a continuation left open is salvaged. */
  function Finish(x: Syntax, s: State): State {
    if !s.pending then s
    else
      var reported := s.(problems := s.problems + [Dangling]);
      match x.parse(s.logical)
      case Entry(key, value) => reported.(entries := s.entries[key := value])
      case _ => reported
  }

  /** What a parsed logical line does to the entries. */
  function Insert(e: Entries, p: Parsed): Entries {
    if p.Entry? then e[p.key := p.value] else e
  }

  lemma StepComplete(x: Syntax, s: State, trimmed: string, text: string, n: nat)
    requires Extended(s, trimmed) == Some(text) && !x.open(text)
    ensures Finish(x, Step(x, s, trimmed, n)).entries == Insert(s.entries, x.parse(text))
  {
  }

  lemma StepIgnored(x: Syntax, s: State, trimmed: string, n: nat)
    requires Extended(s, trimmed) == None
    ensures Finish(x, Step(x, s, trimmed, n)).entries == s.entries
  {
  }

  // ---------- reading in two parts ----------

  lemma {:induction false} ReadConcat(x: Syntax, s: State, a: seq<string>, b: seq<string>, n: nat)
    ensures Read(x, s, a + b, n) == Read(x, Read(x, s, a, n), b, n + |a|)
    decreases |a|
  {
    if a == [] {
      assert a + b == b;
    } else {
      assert (a + b)[1..] == a[1..] + b;
      ReadConcat(x, Step(x, s, a[0], n), a[1..], b, n + 1);
    }
  }

  lemma ReadSplit(x: Syntax, all: seq<string>, a: seq<string>, b: seq<string>)
    requires all == a + b
    ensures Read(x, EMPTY, all, 0) == Read(x, Read(x, EMPTY, a, 0), b, |a|)
  {
    ReadConcat(x, EMPTY, a, b, 0);
  }

  lemma ReadFirst(x: Syntax, s: State, line: string, more: seq<string>, n: nat)
    ensures Read(x, s, [line] + more, n) == Read(x, Step(x, s, line, n), more, n + 1)
  {
    assert ([line] + more)[1..] == more;
  }

  lemma ReadOne(x: Syntax, s: State, line: string, n: nat)
    ensures Read(x, s, [line], n) == Step(x, s, line, n)
  {
    assert [line][1..] == [];
  }

  /** Two readings in step: same continuation, the first with the entries of `base` underneath. */
  ghost predicate Like(s: State, t: State, base: Entries) {
    && s.pending == t.pending
    && (s.pending ==> s.logical == t.logical)
    && s.entries == base + t.entries
  }

  lemma EnterLike(s: State, t: State, base: Entries, text: string, n: nat, m: nat, p: Parsed)
    requires s.entries == base + t.entries
    ensures Like(Enter(s, text, n, p), Enter(t, text, m, p), base)
  {
    if p.Entry? { assert (base + t.entries)[p.key := p.value] == base + t.entries[p.key := p.value]; }
  }

  lemma StepLike(x: Syntax, s: State, t: State, base: Entries, line: string, n: nat, m: nat)
    requires Like(s, t, base)
    ensures Like(Step(x, s, line, n), Step(x, t, line, m), base)
  {
    match Extended(s, line)
    case None =>
    case Some(text) =>
      var i, j := if s.pending then s.start else n + 1, if t.pending then t.start else m + 1;
      EnterLike(s, t, base, text, i, j, x.parse(text));
  }

  lemma {:induction false} ReadLike(x: Syntax, s: State, t: State, base: Entries, lines: seq<string>, n: nat, m: nat)
    requires Like(s, t, base)
    ensures Like(Read(x, s, lines, n), Read(x, t, lines, m), base)
    decreases |lines|
  {
    if lines != [] {
      StepLike(x, s, t, base, lines[0], n, m);
      ReadLike(x, Step(x, s, lines[0], n), Step(x, t, lines[0], m), base, lines[1..], n + 1, m + 1);
    }
  }

  lemma FinishLike(x: Syntax, s: State, t: State, base: Entries)
    requires Like(s, t, base)
    ensures Finish(x, s).entries == base + Finish(x, t).entries
  {
  }
}
