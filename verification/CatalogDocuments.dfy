/**
  Catalogue documents as a translator writes them (`i18n/catalog.rs`): every way of writing the entries
  of a table is read back as that table, and what else a line may hold.
  */
module CatalogDocuments {
  import opened Wrappers
  import opened Strings
  import opened CatalogReader
  import opened CatalogSyntax
  import opened Catalogs

  // ---------- writing one character ----------

  /** `0` to `9` from code point 48, `A` to `F` from 65 and `a` to `f` from 97. */
  predicate HexDigit(c: char, d: nat) {
    || (d < 10 && c as int == 48 + d)
    || (10 <= d < 16 && (c as int == 55 + d || c as int == 87 + d))
  }

  /** `\u` and four hexadecimal digits, in either case. */
  predicate UnicodeDigits(w: string, c: char, a: nat, b: nat, d: nat, e: nat) {
    && |w| == 6 && w[0] == '\\' && w[1] == 'u'
    && HexDigit(w[2], a) && HexDigit(w[3], b) && HexDigit(w[4], d) && HexDigit(w[5], e)
    && c as int == 16 * (16 * (16 * a + b) + d) + e
  }

  ghost predicate UnicodeEscape(w: string, c: char) {
    exists a: nat, b: nat, d: nat, e: nat :: UnicodeDigits(w, c, a, b, d, e)
  }

  /** A character that needs no escape anywhere in a line. */
  predicate Plain(c: char) {
    !IsWhitespace(c) && c !in {'\\', '=', '#', '!', '\U{FEFF}'}
  }

  /** The ways to write `c`: as it is, named, behind a backslash, or by its code point. */
  ghost predicate Writes(w: string, c: char) {
    || (w == [c] && Plain(c))
    || (w == "\\n" && c as int == 10) || (w == "\\r" && c as int == 13)
    || (w == "\\t" && c as int == 9) || (w == "\\f" && c as int == 12)
    || (w == ['\\', c] && !IsWhitespace(c) && c !in {'n', 'r', 't', 'f', 'u'})
    || UnicodeEscape(w, c)
  }

  ghost predicate WritesText(ws: seq<string>, s: string) {
    |ws| == |s| && forall k | 0 <= k < |s| :: Writes(ws[k], s[k])
  }

  function Concat(ws: seq<string>): string {
    if ws == [] then [] else ws[0] + Concat(ws[1..])
  }

  lemma HexDigitIs(c: char, d: nat)
    requires HexDigit(c, d)
    ensures IsHex(c) && HexValue(c) == d && Plain(c)
  {
  }

  lemma FourDigits(s: string, c: char, a: nat, b: nat, d: nat, e: nat)
    requires |s| >= 4 && HexDigit(s[0], a) && HexDigit(s[1], b) && HexDigit(s[2], d) && HexDigit(s[3], e)
    requires c as int == 16 * (16 * (16 * a + b) + d) + e
    ensures FourHex(s) && CodePoint(s) == c as int && !IsSurrogate(CodePoint(s))
  {
    HexDigitIs(s[0], a);
    HexDigitIs(s[1], b);
    HexDigitIs(s[2], d);
    HexDigitIs(s[3], e);
  }

  lemma UnicodeRead(w: string, c: char, rest: string)
    requires UnicodeEscape(w, c)
    ensures |w| == 6 && w[0] == '\\' && Escape((w + rest)[1..]) == ([c], 5)
  {
    var a: nat, b: nat, d: nat, e: nat :| UnicodeDigits(w, c, a, b, d, e);
    var s := (w + rest)[1..];
    assert s[0] == 'u' && s[1..][0] == w[2] && s[1..][1] == w[3] && s[1..][2] == w[4] && s[1..][3] == w[5];
    FourDigits(s[1..], c, a, b, d, e);
  }

  lemma DigitsArePlain(w: string, c: char, a: nat, b: nat, d: nat, e: nat)
    requires UnicodeDigits(w, c, a, b, d, e)
    ensures Plain(w[2]) && Plain(w[3]) && Plain(w[4]) && Plain(w[5])
  {
    HexDigitIs(w[2], a);
    HexDigitIs(w[3], b);
    HexDigitIs(w[4], d);
    HexDigitIs(w[5], e);
  }

  lemma UnicodeIsPlain(w: string, c: char)
    requires UnicodeEscape(w, c)
    ensures |w| == 6 && w[0] == '\\' && w[1] == 'u' && forall k | 2 <= k < 6 :: Plain(w[k])
  {
    var a: nat, b: nat, d: nat, e: nat :| UnicodeDigits(w, c, a, b, d, e);
    DigitsArePlain(w, c, a, b, d, e);
  }

  /** A written character stands for itself, whatever follows. */
  lemma CharacterRead(w: string, c: char, rest: string)
    requires Writes(w, c)
    ensures Unescape(w + rest) == [c] + Unescape(rest)
  {
    var s := w + rest;
    if w == [c] && Plain(c) {
      assert s[1..] == rest;
    } else if UnicodeEscape(w, c) {
      UnicodeRead(w, c, rest);
      assert s[6..] == rest;
    } else {
      assert s[1..][0] == w[1] && s[2..] == rest;
    }
  }

  lemma {:induction false} TextRead(ws: seq<string>, s: string, rest: string)
    requires WritesText(ws, s)
    ensures Unescape(Concat(ws) + rest) == s + Unescape(rest)
  {
    if ws == [] {
      assert Concat(ws) + rest == rest && s + Unescape(rest) == Unescape(rest);
    } else {
      CharacterRead(ws[0], s[0], Concat(ws[1..]) + rest);
      TextRead(ws[1..], s[1..], rest);
      Associates(ws[0], Concat(ws[1..]), rest);
      Associates([s[0]], s[1..], Unescape(rest));
      assert s == [s[0]] + s[1..];
    }
  }

  // ---------- what a written text does not contain ----------

  predicate NoBlanks(w: string) {
    forall c | c in w :: !IsWhitespace(c)
  }

  predicate OpensLine(w: string) {
    w != [] && w[0] !in {'#', '!', '\U{FEFF}'}
  }

  lemma CharacterShape(w: string, c: char)
    requires Writes(w, c)
    ensures NoBlanks(w) && OpensLine(w)
  {
    if UnicodeEscape(w, c) {
      UnicodeIsPlain(w, c);
      forall d | d in w ensures !IsWhitespace(d) {
        var k :| 0 <= k < |w| && w[k] == d;
      }
    }
  }

  lemma {:induction false} TextShape(ws: seq<string>, s: string)
    requires WritesText(ws, s)
    ensures NoBlanks(Concat(ws)) && (s != "" ==> OpensLine(Concat(ws)))
  {
    if ws != [] {
      CharacterShape(ws[0], s[0]);
      TextShape(ws[1..], s[1..]);
    }
  }

  function Behind(n: nat, r: Option<nat>): Option<nat> {
    match r case Some(k) => Some(n + k) case None => None
  }

  lemma {:induction false} PlainHasNoSeparator(p: string, rest: string)
    requires forall k | 0 <= k < |p| :: p[k] != '=' && p[k] != '\\'
    ensures Separator(p + rest, false) == Behind(|p|, Separator(rest, false))
  {
    if p == [] {
      assert p + rest == rest;
    } else {
      assert (p + rest)[1..] == p[1..] + rest;
      PlainHasNoSeparator(p[1..], rest);
    }
  }

  /** Behind a backslash nothing separates. */
  lemma EscapedHasNoSeparator(w: string, rest: string)
    requires |w| >= 2 && w[0] == '\\' && forall k | 2 <= k < |w| :: Plain(w[k])
    ensures Separator(w + rest, false) == Behind(|w|, Separator(rest, false))
  {
    var s := w + rest;
    assert s[1..][1..] == w[2..] + rest;
    PlainHasNoSeparator(w[2..], rest);
  }

  lemma CharacterHasNoSeparator(w: string, c: char, rest: string)
    requires Writes(w, c)
    ensures Separator(w + rest, false) == Behind(|w|, Separator(rest, false))
  {
    if w == [c] && Plain(c) {
      PlainHasNoSeparator(w, rest);
    } else {
      if UnicodeEscape(w, c) { UnicodeIsPlain(w, c); }
      EscapedHasNoSeparator(w, rest);
    }
  }

  lemma SeparatorBehindBoth(w: string, tail: string, rest: string)
    requires Separator(w + (tail + rest), false) == Behind(|w|, Separator(tail + rest, false))
    requires Separator(tail + rest, false) == Behind(|tail|, Separator(rest, false))
    ensures Separator(w + tail + rest, false) == Behind(|w + tail|, Separator(rest, false))
  {
    Associates(w, tail, rest);
  }

  lemma {:induction false} TextHasNoSeparator(ws: seq<string>, s: string, rest: string)
    requires WritesText(ws, s)
    ensures Separator(Concat(ws) + rest, false) == Behind(|Concat(ws)|, Separator(rest, false))
  {
    if ws == [] {
      assert Concat(ws) + rest == rest;
    } else {
      var w, tail := ws[0], Concat(ws[1..]);
      CharacterHasNoSeparator(w, s[0], tail + rest);
      TextHasNoSeparator(ws[1..], s[1..], rest);
      SeparatorBehindBoth(w, tail, rest);
    }
  }

  lemma {:induction false} ConcatAppend(ws: seq<string>, w: string)
    ensures Concat(ws + [w]) == Concat(ws) + w
  {
    if ws == [] {
      assert [] + [w] == [w] && [w][1..] == [] && w + [] == w && [] + w == w;
    } else {
      assert (ws + [w])[1..] == ws[1..] + [w];
      ConcatAppend(ws[1..], w);
      Associates(ws[0], Concat(ws[1..]), w);
    }
  }

  /** A written text does not ask for another line, whatever it stands behind. */
  lemma {:induction false} TextEndsClosed(front: string, ws: seq<string>, s: string)
    requires WritesText(ws, s) && !EndsOpen(front)
    ensures !EndsOpen(front + Concat(ws))
    decreases |ws|
  {
    if ws == [] {
      assert front + Concat(ws) == front;
    } else {
      var n := |ws| - 1;
      TextEndsClosed(front, ws[..n], s[..n]);
      assert ws == ws[..n] + [ws[n]];
      ConcatAppend(ws[..n], ws[n]);
      Associates(front, Concat(ws[..n]), ws[n]);
      CharacterEndsClosed(front + Concat(ws[..n]), ws[n], s[n]);
    }
  }

  lemma CharacterEndsClosed(front: string, w: string, c: char)
    requires Writes(w, c) && !EndsOpen(front)
    ensures !EndsOpen(front + w)
  {
    var t := front + w;
    if w == "\\\\" {
      assert t[..|t| - 1][..|t| - 2] == front;
      assert TrailingBackslashes(t) == 2 + TrailingBackslashes(front);
    } else {
      if UnicodeEscape(w, c) { UnicodeIsPlain(w, c); }
      assert t[|t| - 1] == w[|w| - 1] != '\\';
    }
  }

  // ---------- a line, and a document of lines ----------

  /** Blanks inside one line. */
  predicate Margin(s: string) {
    forall c | c in s :: IsWhitespace(c) && c != '\n' && c != '\r'
  }

  /** A line for one entry: the pieces of its key and of its value, and the blanks around both. */
  datatype Writing = Writing(
    lead: string, key: seq<string>, afterKey: string, beforeValue: string, value: seq<string>, trail: string)

  function LineOf(w: Writing): string {
    w.lead + (Concat(w.key) + (w.afterKey + ("=" + (w.beforeValue + Concat(w.value) + w.trail))))
  }

  predicate TrimmedText(s: string) {
    s != "" && !IsWhitespace(s[0]) && !IsWhitespace(s[|s| - 1])
  }

  ghost predicate WritesEntry(w: Writing, key: string, value: string) {
    && Margin(w.lead) && Margin(w.afterKey) && Margin(w.beforeValue) && Margin(w.trail)
    && TrimmedText(key) && WritesText(w.key, key) && WritesText(w.value, value)
  }

  lemma MarginIsBlank(s: string)
    requires Margin(s)
    ensures Blank(s) && '\\' !in s && '=' !in s && '\n' !in s && '\r' !in s
  {
    forall k | 0 <= k < |s| ensures IsWhitespace(s[k]) { assert s[k] in s; }
  }

  lemma {:induction false} TrimEndOf(s: string, blanks: string)
    requires Blank(blanks) && (s == "" || !IsWhitespace(s[|s| - 1]))
    ensures TrimEnd(s + blanks) == s
  {
    if blanks == "" {
      assert s + blanks == s;
    } else {
      assert (s + blanks)[..|s + blanks| - 1] == s + blanks[..|blanks| - 1];
      TrimEndOf(s, blanks[..|blanks| - 1]);
    }
  }

  lemma TrimOf(before: string, s: string, after: string)
    requires Blank(before) && Blank(after) && (s == "" || (!IsWhitespace(s[0]) && !IsWhitespace(s[|s| - 1])))
    ensures Trim(before + s + after) == s
  {
    if s == "" {
      assert before + s + after == before + after && Blank(before + after);
    } else {
      Associates(before, s, after);
      TrimInFront(before, s + after);
      TrimEndOf(s, after);
    }
  }

  lemma TrimKey(key: string, blanks: string)
    requires TrimmedText(key) && Blank(blanks)
    ensures Trim(key + blanks) == key
  {
    TrimOf("", key, blanks);
    assert "" + key + blanks == key + blanks;
  }

  lemma KeyRead(w: Writing, key: string)
    requires WritesText(w.key, key) && Margin(w.afterKey) && TrimmedText(key)
    ensures Trim(Unescape(Concat(w.key) + w.afterKey)) == key
  {
    var k, blanks := Concat(w.key), w.afterKey;
    MarginIsBlank(blanks);
    NothingToUnescape(blanks);
    TextRead(w.key, key, blanks);
    assert Unescape(k + blanks) == key + blanks;
    TrimKey(key, blanks);
  }

  lemma ValueRead(w: Writing, value: string)
    requires WritesText(w.value, value) && Margin(w.beforeValue) && Margin(w.trail)
    ensures Unescape(Trim(w.beforeValue + Concat(w.value) + w.trail)) == value
  {
    var v := Concat(w.value);
    TextShape(w.value, value);
    MarginIsBlank(w.beforeValue);
    MarginIsBlank(w.trail);
    if v != "" { assert v[0] in v && v[|v| - 1] in v; }
    TrimOf(w.beforeValue, v, w.trail);
    TextRead(w.value, value, "");
    assert v + "" == v && value + "" == value;
  }

  lemma SeparatorRead(w: Writing, key: string, rest: string)
    requires WritesText(w.key, key) && Margin(w.afterKey)
    ensures var k := Concat(w.key) + w.afterKey;
      Separator(Concat(w.key) + (w.afterKey + ("=" + rest)), false) == Some(|k|)
  {
    TextHasNoSeparator(w.key, key, w.afterKey + ("=" + rest));
    MarginIsBlank(w.afterKey);
    PlainHasNoSeparator(w.afterKey, "=" + rest);
  }

  lemma CutAtSeparator(a: string, b: string, v: string, text: string)
    requires text == a + (b + ("=" + v))
    ensures |a + b| < |text| && text[..|a + b|] == a + b && text[|a + b| + 1..] == v
  {
  }

  /** A written entry is read as that entry. */
  lemma EntryRead(w: Writing, key: string, value: string, text: string)
    requires WritesEntry(w, key, value)
    requires text == Concat(w.key) + (w.afterKey + ("=" + (w.beforeValue + Concat(w.value) + w.trail)))
    ensures ParseLogical(text) == Entry(key, value)
  {
    var k, v := Concat(w.key) + w.afterKey, w.beforeValue + Concat(w.value) + w.trail;
    SeparatorRead(w, key, v);
    CutAtSeparator(Concat(w.key), w.afterKey, v, text);
    KeyRead(w, key);
    ValueRead(w, value);
  }

  lemma BlankEndsClosed(front: string, blanks: string)
    requires !EndsOpen(front) && Blank(blanks)
    ensures !EndsOpen(front + blanks)
  {
    if blanks == "" {
      assert front + blanks == front;
    } else {
      var t := front + blanks;
      assert t[|t| - 1] == blanks[|blanks| - 1];
    }
  }

  /** Nor does it ask for another line, or look like a comment. */
  lemma EntryEndsClosed(w: Writing, key: string, value: string, text: string)
    requires WritesEntry(w, key, value)
    requires text == Concat(w.key) + (w.afterKey + ("=" + (w.beforeValue + Concat(w.value) + w.trail)))
    ensures !EndsOpen(text) && OpensLine(text) && !IsWhitespace(text[0])
  {
    TextShape(w.key, key);
    assert text[0] == Concat(w.key)[0] && Concat(w.key)[0] in Concat(w.key);
    var front := Concat(w.key) + w.afterKey + "=";
    assert front[|front| - 1] == '=';
    assert text == front + w.beforeValue + Concat(w.value) + w.trail;
    MarginIsBlank(w.beforeValue);
    MarginIsBlank(w.trail);
    ValueEndsClosed(front, w.beforeValue, w.value, value, w.trail);
  }

  lemma ValueEndsClosed(front: string, before: string, ws: seq<string>, value: string, after: string)
    requires front != "" && front[|front| - 1] == '=' && Blank(before) && Blank(after) && WritesText(ws, value)
    ensures !EndsOpen(front + before + Concat(ws) + after)
  {
    BlankEndsClosed(front, before);
    TextEndsClosed(front + before, ws, value);
    BlankEndsClosed(front + before + Concat(ws), after);
  }

  lemma LineIsOne(w: Writing, key: string, value: string)
    requires WritesEntry(w, key, value)
    ensures '\n' !in LineOf(w) && '\r' !in LineOf(w) && OpensWithoutMark(LineOf(w))
  {
    TextShape(w.key, key);
    TextShape(w.value, value);
    MarginIsBlank(w.lead);
    MarginIsBlank(w.afterKey);
    MarginIsBlank(w.beforeValue);
    MarginIsBlank(w.trail);
    if w.lead == "" { assert LineOf(w)[0] == Concat(w.key)[0]; }
  }

  predicate OpensWithoutMark(s: string) {
    s != "" && s[0] != '\U{FEFF}'
  }

  lemma LineTrimmed(w: Writing, key: string, value: string) returns (text: string)
    requires WritesEntry(w, key, value)
    ensures TrimLine(LineOf(w)) == text == TrimLine(StripCr(LineOf(w)))
    ensures ParseLogical(text) == Entry(key, value) && !EndsOpen(text) && OpensLine(text)
  {
    text := Concat(w.key) + (w.afterKey + ("=" + (w.beforeValue + Concat(w.value) + w.trail)));
    EntryRead(w, key, value, text);
    EntryEndsClosed(w, key, value, text);
    LineIsOne(w, key, value);
    MarginIsBlank(w.lead);
    var line := LineOf(w);
    assert line[|line| - 1] in line;
    assert StripCr(line) == line;
    TrimInFront(w.lead, text);
  }

  function DocumentOf(ws: seq<Writing>): string {
    if ws == [] then "" else LineOf(ws[0]) + "\n" + DocumentOf(ws[1..])
  }

  /** The table the entries make over `e`: the last one of a key counts. */
  function Table(e: Entries, pairs: seq<(string, string)>): Entries
    decreases |pairs|
  {
    if pairs == [] then e
    else Table(e[pairs[0].0 := pairs[0].1], pairs[1..])
  }

  /** A key that was there before is reported, with its line and the value it had. */
  function Repeated(e: Entries, pairs: seq<(string, string)>, line: nat): seq<Problem>
    decreases |pairs|
  {
    if pairs == [] then []
    else
      (if pairs[0].0 in e then [Duplicate(line, pairs[0].0, e[pairs[0].0])] else [])
      + Repeated(e[pairs[0].0 := pairs[0].1], pairs[1..], line + 1)
  }

  ghost predicate WritesAll(ws: seq<Writing>, pairs: seq<(string, string)>) {
    |ws| == |pairs| && forall k | 0 <= k < |ws| :: WritesEntry(ws[k], pairs[k].0, pairs[k].1)
  }

  /** The first line of a document, and the lines behind it. */
  lemma FirstLineOf(line: string, more: string)
    requires '\n' !in line
    ensures TrimmedLines(line + "\n" + more) == [TrimLine(StripCr(line))] + TrimmedLines(more)
  {
    var t := line + "\n" + more;
    assert t[..|line|] == line && t[|line| + 1..] == more;
    FindIs(t, '\n', |line|);
    LinesFrom(t, |line|);
  }

  /** One entry, entered. */
  lemma StepEntry(x: Syntax, s: State, text: string, n: nat, key: string, value: string)
    requires !s.pending && OpensLine(text) && !x.open(text) && x.parse(text) == Entry(key, value)
    ensures var s' := Step(x, s, text, n);
      && !s'.pending && s'.entries == s.entries[key := value]
      && s'.problems == s.problems + (if key in s.entries then [Duplicate(n + 1, key, s.entries[key])] else [])
  {
  }

  /** The first line of a document of entries, entered. */
  lemma FirstEntryRead(x: Syntax, s: State, w: Writing, key: string, value: string, more: string, n: nat) returns (s': State)
    requires x == PROPERTIES && !s.pending && WritesEntry(w, key, value)
    ensures Read(x, s, TrimmedLines(LineOf(w) + "\n" + more), n) == Read(x, s', TrimmedLines(more), n + 1)
    ensures !s'.pending && s'.entries == s.entries[key := value]
    ensures s'.problems == s.problems + (if key in s.entries then [Duplicate(n + 1, key, s.entries[key])] else [])
  {
    LineIsOne(w, key, value);
    var text := LineTrimmed(w, key, value);
    FirstLineOf(LineOf(w), more);
    ReadFirst(x, s, text, TrimmedLines(more), n);
    StepEntry(x, s, text, n, key, value);
    s' := Step(x, s, text, n);
  }

  lemma {:induction false} DocumentRead(x: Syntax, s: State, ws: seq<Writing>, pairs: seq<(string, string)>, n: nat)
    requires x == PROPERTIES && !s.pending && WritesAll(ws, pairs)
    ensures var s' := Read(x, s, TrimmedLines(DocumentOf(ws)), n);
      !s'.pending && s'.entries == Table(s.entries, pairs) && s'.problems == s.problems + Repeated(s.entries, pairs, n + 1)
    decreases |ws|
  {
    if ws == [] {
      assert TrimmedLines("") == [];
    } else {
      var (key, value) := pairs[0];
      assert WritesEntry(ws[0], key, value);
      var s' := FirstEntryRead(x, s, ws[0], key, value, DocumentOf(ws[1..]), n);
      DocumentRead(x, s', ws[1..], pairs[1..], n + 1);
      Associates(s.problems, if key in s.entries then [Duplicate(n + 1, key, s.entries[key])] else [],
        Repeated(s.entries[key := value], pairs[1..], n + 2));
    }
  }

  lemma DocumentHasNoBom(ws: seq<Writing>, pairs: seq<(string, string)>)
    requires WritesAll(ws, pairs)
    ensures !StartsWithBom(DocumentOf(ws))
  {
    if ws != [] {
      assert WritesEntry(ws[0], pairs[0].0, pairs[0].1);
      LineIsOne(ws[0], pairs[0].0, pairs[0].1);
    }
  }

  /**
    Whatever way the entries of a list are written, with whatever blanks around keys and values, the
    document is read as that list: its table, and a problem for each key that comes again.
    */
  lemma EveryWritingIsRead(ws: seq<Writing>, pairs: seq<(string, string)>)
    requires WritesAll(ws, pairs)
    ensures EntriesOf(DocumentOf(ws)) == Table(map[], pairs)
    ensures Contents(DocumentOf(ws)).problems == Repeated(map[], pairs, 1)
  {
    DocumentHasNoBom(ws, pairs);
    assert StripBom(DocumentOf(ws)) == DocumentOf(ws);
    DocumentRead(PROPERTIES, EMPTY, ws, pairs, 0);
    assert [] + Repeated(map[], pairs, 1) == Repeated(map[], pairs, 1);
  }

  // ---------- every table has a document ----------

  function Digit(d: nat): char
    requires d < 16
  {
    if d < 10 then (48 + d) as char else (87 + d) as char
  }

  lemma CharacterCanBeWritten(c: char) returns (w: string)
    ensures Writes(w, c)
  {
    var v := c as int;
    if v < 0x1_0000 {
      var high, low := v / 256, v % 256;
      var a, b, d, e := high / 16, high % 16, low / 16, low % 16;
      w := ['\\', 'u', Digit(a), Digit(b), Digit(d), Digit(e)];
      assert UnicodeDigits(w, c, a, b, d, e);
    } else {
      w := [c];
    }
  }

  lemma {:induction false} TextCanBeWritten(s: string) returns (ws: seq<string>)
    ensures WritesText(ws, s)
  {
    if s == "" {
      ws := [];
    } else {
      var w := CharacterCanBeWritten(s[0]);
      var rest := TextCanBeWritten(s[1..]);
      ws := [w] + rest;
    }
  }

  lemma {:induction false} ListCanBeWritten(pairs: seq<(string, string)>) returns (ws: seq<Writing>)
    requires forall k | 0 <= k < |pairs| :: TrimmedText(pairs[k].0)
    ensures WritesAll(ws, pairs)
  {
    if pairs == [] {
      ws := [];
    } else {
      var key := TextCanBeWritten(pairs[0].0);
      var value := TextCanBeWritten(pairs[0].1);
      var rest := ListCanBeWritten(pairs[1..]);
      ws := [Writing("", key, "", "", value, "")] + rest;
    }
  }

  lemma {:induction false} ListOf(e: Entries, m: Entries, line: nat) returns (pairs: seq<(string, string)>)
    requires e.Keys !! m.Keys && forall key | key in m :: TrimmedText(key)
    ensures Table(e, pairs) == e + m && Repeated(e, pairs, line) == []
    ensures forall k | 0 <= k < |pairs| :: TrimmedText(pairs[k].0)
    decreases m.Keys
  {
    if m == map[] {
      pairs := [];
    } else {
      var key :| key in m;
      var rest := ListOf(e[key := m[key]], m - {key}, line + 1);
      pairs := [(key, m[key])] + rest;
      assert e[key := m[key]] + (m - {key}) == e + m;
    }
  }

  lemma OverNothing(m: Entries)
    ensures map[] + m == m
  {
  }

  /** Nothing cannot be said: every table whose keys begin and end without blanks is read from some document. */
  lemma EveryTableCanBeWritten(m: Entries) returns (text: string)
    requires forall key | key in m :: TrimmedText(key)
    ensures EntriesOf(text) == m && Contents(text).problems == []
  {
    var pairs := ListOf(map[], m, 1);
    var ws := ListCanBeWritten(pairs);
    EveryWritingIsRead(ws, pairs);
    OverNothing(m);
    text := DocumentOf(ws);
  }

  lemma {:induction false} KeysRead(x: Syntax, s: State, lines: seq<string>, n: nat)
    requires x == PROPERTIES && forall key | key in s.entries :: TrimmedText(key)
    ensures forall key | key in Read(x, s, lines, n).entries :: TrimmedText(key)
    decreases |lines|
  {
    if lines != [] {
      KeysOfStep(x, s, lines[0], n);
      KeysRead(x, Step(x, s, lines[0], n), lines[1..], n + 1);
    }
  }

  lemma KeysOfStep(x: Syntax, s: State, line: string, n: nat)
    requires x == PROPERTIES && forall key | key in s.entries :: TrimmedText(key)
    ensures forall key | key in Step(x, s, line, n).entries :: TrimmedText(key)
  {
    match Extended(s, line)
    case None =>
    case Some(text) => ParsedKey(text);
  }

  lemma ParsedKey(text: string)
    ensures ParseLogical(text).Entry? ==> TrimmedText(ParseLogical(text).key)
  {
    if ParseLogical(text).Entry? {
      TrimmedOf(Unescape(text[..Separator(text, false).value]));
    }
  }

  lemma TrimmedOf(s: string)
    ensures Trim(s) == "" || TrimmedText(Trim(s))
  {
    var t := TrimStart(s);
    var blanks := TrimEndCuts(t);
    if Trim(s) != "" { assert t[0] == Trim(s)[0]; }
  }

  lemma KeysOfContents(x: Syntax, text: string)
    requires x == PROPERTIES
    ensures forall key | key in ContentsBy(x, text).entries :: TrimmedText(key)
  {
    var s := Read(x, EMPTY, TrimmedLines(StripBom(text)), 0);
    KeysRead(x, EMPTY, TrimmedLines(StripBom(text)), 0);
    if s.pending { ParsedKey(s.logical); }
  }

  /** A table is read from some document exactly when its keys begin and end without blanks. */
  lemma TablesReadExactly(m: Entries)
    ensures (exists text :: EntriesOf(text) == m) <==> forall key | key in m :: TrimmedText(key)
  {
    if text :| EntriesOf(text) == m {
      KeysOfContents(PROPERTIES, text);
    }
    if forall key | key in m :: TrimmedText(key) {
      var text := EveryTableCanBeWritten(m);
    }
  }
}
