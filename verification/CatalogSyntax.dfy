/** The `.properties` syntax of message catalogues (`i18n/catalog.rs`): lines, escapes, separators. */
module CatalogSyntax {
  import opened Wrappers
  import opened Strings

  // ---------- lines ----------

  function StripCr(s: string): string {
    if s != [] && s[|s| - 1] == '\r' then s[..|s| - 1] else s
  }

  function StripBom(text: string): string {
    if text != [] && text[0] == '\U{FEFF}' then text[1..] else text
  }

  /** `str::lines`: a line ends with LF or CR LF; the last one may go without. */
  function Lines(text: string): seq<string> {
    match Find(text, '\n')
    case Some(i) => [StripCr(text[..i])] + Lines(text[i + 1..])
    case None => if text == [] then [] else [text]
  }

  /** What follows the last line feed. */
  function Rest(text: string): string {
    match Find(text, '\n')
    case Some(i) => Rest(text[i + 1..])
    case None => text
  }

  /** Everything up to and with the last line feed. */
  function Whole(text: string): string {
    match Find(text, '\n')
    case Some(i) => text[..i + 1] + Whole(text[i + 1..])
    case None => []
  }

  lemma {:induction false} WholeAndRest(text: string)
    ensures Whole(text) + Rest(text) == text
    decreases |text|
  {
    match Find(text, '\n')
    case None => assert [] + text == text;
    case Some(i) =>
      assert text == text[..i + 1] + text[i + 1..];
      WholeAndRest(text[i + 1..]);
      Associates(text[..i + 1], Whole(text[i + 1..]), Rest(text[i + 1..]));
  }

  lemma {:induction false} RestHasNoLine(text: string)
    ensures '\n' !in Rest(text)
    decreases |text|
  {
    if Find(text, '\n').Some? { RestHasNoLine(text[Find(text, '\n').value + 1..]); }
  }

  lemma FindInFront(a: string, b: string)
    requires Find(a, '\n').Some?
    ensures Find(a + b, '\n') == Find(a, '\n')
  {
    var i := Find(a, '\n').value;
    assert (a + b)[..i] == a[..i];
    FindIs(a + b, '\n', i);
  }

  lemma FirstLineHead(text: string, i: nat)
    requires Find(text, '\n') == Some(i)
    ensures Find(text[..i + 1], '\n') == Some(i) && text[..i + 1][..i] == text[..i]
  {
    assert text[..i + 1][..i] == text[..i];
    FindIs(text[..i + 1], '\n', i);
  }

  /** The complete lines of a text are read the same whatever follows them. */
  lemma {:induction false} LinesOfWhole(text: string, more: string)
    ensures Lines(Whole(text) + more) == Lines(Whole(text)) + Lines(more)
    decreases |text|
  {
    match Find(text, '\n')
    case None =>
      assert Whole(text) == [] && [] + more == more;
    case Some(i) =>
      LinesOfWhole(text[i + 1..], more);
      LinesOfLine(text, i, Whole(text[i + 1..]), more);
  }

  lemma LinesOfLine(text: string, i: nat, whole: string, more: string)
    requires Find(text, '\n') == Some(i) && Lines(whole + more) == Lines(whole) + Lines(more)
    ensures Lines(text[..i + 1] + whole + more) == Lines(text[..i + 1] + whole) + Lines(more)
  {
    FirstLineHead(text, i);
    LinesOfHead(text[..i + 1], i, whole);
    LinesOfHead(text[..i + 1], i, whole + more);
    Associates(text[..i + 1], whole, more);
    Associates([StripCr(text[..i])], Lines(whole), Lines(more));
  }

  lemma LinesOfHead(head: string, i: nat, more: string)
    requires |head| == i + 1 && Find(head, '\n') == Some(i)
    ensures Lines(head + more) == [StripCr(head[..i])] + Lines(more)
  {
    FindInFront(head, more);
    assert (head + more)[..i] == head[..i] && (head + more)[i + 1..] == more;
  }

  // ---------- trailing backslashes and the separator ----------

  function TrailingBackslashes(s: string): nat {
    if s == [] || s[|s| - 1] != '\\' then 0 else 1 + TrailingBackslashes(s[..|s| - 1])
  }

  function Shift(i: Option<nat>): Option<nat> {
    match i case Some(k) => Some(k + 1) case None => None
  }

  /** Where the first unescaped `=` stands. */
  function Separator(s: string, escaped: bool): (r: Option<nat>)
    ensures r.Some? ==> r.value < |s| && s[r.value] == '='
  {
    if s == [] then None
    else if !escaped && s[0] == '=' then Some(0)
    else Shift(Separator(s[1..], !escaped && s[0] == '\\'))
  }

  method SplitEntry(s: string) returns (r: Option<nat>)
    ensures r == Separator(s, false)
  {
    var escaped := false;
    assert s[0..] == s;
    for i := 0 to |s|
      invariant Separator(s, false) ==
        match Separator(s[i..], escaped) case Some(k) => Some(k + i) case None => None
    {
      assert s[i..][1..] == s[i + 1..];
      if escaped {
        escaped := false;
        continue;
      }
      if s[i] == '\\' {
        escaped := true;
      } else if s[i] == '=' {
        return Some(i);
      }
    }
    r := None;
  }

  // ---------- escapes ----------

  predicate IsHex(c: char) {
    '0' <= c <= '9' || 'a' <= c <= 'f' || 'A' <= c <= 'F'
  }

  function HexValue(c: char): (v: nat)
    requires IsHex(c)
    ensures v < 16
  {
    if '0' <= c <= '9' then c as int - '0' as int
    else if 'a' <= c <= 'f' then c as int - 'a' as int + 10
    else c as int - 'A' as int + 10
  }

  predicate FourHex(s: string) {
    |s| >= 4 && IsHex(s[0]) && IsHex(s[1]) && IsHex(s[2]) && IsHex(s[3])
  }

  function CodePoint(s: string): (v: nat)
    requires FourHex(s)
    ensures v <= 0xFFFF
  {
    HexValue(s[0]) * 4096 + HexValue(s[1]) * 256 + HexValue(s[2]) * 16 + HexValue(s[3])
  }

  /** A surrogate has no character, so its escape is kept as written. */
  predicate IsSurrogate(v: nat) {
    0xD800 <= v <= 0xDFFF
  }

  /** The characters one escape stands for (`s` follows the backslash) and how much it takes. */
  function Escape(s: string): (r: (string, nat))
    requires s != []
    ensures 1 <= r.1 <= |s|
  {
    if s[0] == 'n' then ("\n", 1)
    else if s[0] == 'r' then ("\r", 1)
    else if s[0] == 't' then ("\t", 1)
    else if s[0] == 'f' then ("\U{000C}", 1)
    else if s[0] != 'u' then ([s[0]], 1)
    else if !FourHex(s[1..]) then ("\\u", 1)
    else if IsSurrogate(CodePoint(s[1..])) then ("\\u" + s[1..5], 5)
    else ([CodePoint(s[1..]) as char], 5)
  }

  function Unescape(s: string): string {
    if s == [] then []
    else if s[0] != '\\' then [s[0]] + Unescape(s[1..])
    else if |s| == 1 then "\\"
    else Escape(s[1..]).0 + Unescape(s[1 + Escape(s[1..]).1..])
  }

  lemma {:induction false} NothingToUnescape(s: string)
    requires '\\' !in s
    ensures Unescape(s) == s
  {
    if s != [] { NothingToUnescape(s[1..]); }
  }

  ghost predicate Unescaped(s: string, i: nat, out: string) {
    i <= |s| && out + Unescape(s[i..]) == Unescape(s)
  }

  lemma UnescapedPlain(s: string, i: nat, out: string)
    requires Unescaped(s, i, out) && i < |s| && s[i] != '\\'
    ensures Unescaped(s, i + 1, out + [s[i]])
  {
    assert s[i..][1..] == s[i + 1..];
    Associates(out, [s[i]], Unescape(s[i + 1..]));
  }

  lemma UnescapedEscape(s: string, i: nat, out: string)
    requires Unescaped(s, i, out) && i + 1 < |s| && s[i] == '\\'
    ensures var (chars, taken) := Escape(s[i + 1..]); Unescaped(s, i + 1 + taken, out + chars)
  {
    var (chars, taken) := Escape(s[i + 1..]);
    assert s[i..][1..] == s[i + 1..] && s[i..][1 + taken..] == s[i + 1 + taken..];
    Associates(out, chars, Unescape(s[i + 1 + taken..]));
  }

  method UnescapeText(s: string) returns (out: string)
    ensures out == Unescape(s)
  {
    if Find(s, '\\') == None {
      NothingToUnescape(s);
      return s;
    }
    out := [];
    var i := 0;
    assert s[0..] == s;
    while i < |s|
      invariant Unescaped(s, i, out)
      decreases |s| - i
    {
      if s[i] != '\\' {
        UnescapedPlain(s, i, out);
        out := out + [s[i]];
        i := i + 1;
        continue;
      }
      if i + 1 == |s| {
        assert s[i..] == "\\";
        out := out + "\\";
        return;
      }
      UnescapedEscape(s, i, out);
      var (chars, taken) := Escape(s[i + 1..]);
      out := out + chars;
      i := i + 1 + taken;
    }
  }

  // ---------- appending to a text ----------

  /** A mark that no escape swallows: text before it is read as without it. */
  const MARK := "#="

  /** Whatever precedes them, two different endings stay different. */
  lemma {:induction false} EndingsDiffer(w: string, c: char, d: char)
    requires c != d && c != '\\' && d != '\\'
    ensures Unescape(w + MARK + [c]) != Unescape(w + MARK + [d])
    decreases |w|
  {
    var s, t := w + MARK + [c], w + MARK + [d];
    if w == [] {
      EndingOf(c);
      EndingOf(d);
      assert (MARK + [c])[2] != (MARK + [d])[2];
    } else if w[0] != '\\' {
      assert s[1..] == w[1..] + MARK + [c] && t[1..] == w[1..] + MARK + [d];
      EndingsDiffer(w[1..], c, d);
      DifferBehind([w[0]], Unescape(s[1..]), Unescape(t[1..]));
    } else if |w| == 1 {
      EndingOfEscaped(s, c);
      EndingOfEscaped(t, d);
      assert (MARK + [c])[2] != (MARK + [d])[2];
    } else {
      var head, rest := BehindEscape(w, c, d);
      EndingsDiffer(rest, c, d);
      DifferBehind(head, Unescape(rest + MARK + [c]), Unescape(rest + MARK + [d]));
    }
  }

  /** What an escape at the front stands for, and what follows it, whatever the ending. */
  lemma BehindEscape(w: string, c: char, d: char) returns (head: string, rest: string)
    requires |w| > 1 && w[0] == '\\'
    ensures |rest| < |w|
    ensures Unescape(w + MARK + [c]) == head + Unescape(rest + MARK + [c])
    ensures Unescape(w + MARK + [d]) == head + Unescape(rest + MARK + [d])
  {
    var s, t := w + MARK + [c], w + MARK + [d];
    EscapeInFront(w[1..], MARK + [c]);
    EscapeInFront(w[1..], MARK + [d]);
    var taken := 1 + Escape(w[1..]).1;
    assert s[1..] == w[1..] + (MARK + [c]) && t[1..] == w[1..] + (MARK + [d]);
    head, rest := Escape(w[1..]).0, w[taken..];
    assert s[taken..] == rest + MARK + [c] && t[taken..] == rest + MARK + [d];
  }

  lemma DifferBehind(front: string, a: string, b: string)
    requires a != b
    ensures front + a != front + b
  {
    assert (front + a)[|front|..] == a && (front + b)[|front|..] == b;
  }

  lemma EndingOf(c: char)
    requires c != '\\'
    ensures Unescape([] + MARK + [c]) == MARK + [c]
  {
    NothingToUnescape(MARK + [c]);
    assert [] + MARK + [c] == MARK + [c];
  }

  lemma EndingOfEscaped(s: string, c: char)
    requires c != '\\' && s == "\\" + MARK + [c]
    ensures Unescape(s) == MARK + [c]
  {
    assert s[1..] == MARK + [c] && s[2..] == "=" + [c];
    assert Escape(s[1..]) == ("#", 1);
    NothingToUnescape("=" + [c]);
    assert "#" + ("=" + [c]) == MARK + [c];
  }

  /** An escape begun in `w` is not continued by a text that starts with the mark. */
  lemma EscapeInFront(w: string, more: string)
    requires w != [] && more != [] && more[0] == '#'
    ensures Escape(w + more) == Escape(w)
  {
    if w[0] == 'u' {
      assert (w + more)[1..] == w[1..] + more;
      if FourHex(w[1..]) { assert (w + more)[1..5] == w[1..5]; }
    }
  }

  lemma {:induction false} SeparatorInFront(w: string, escaped: bool, more: string)
    ensures Separator(w, escaped).Some? ==> Separator(w + more, escaped) == Separator(w, escaped)
  {
    if w != [] {
      assert (w + more)[1..] == w[1..] + more;
      SeparatorInFront(w[1..], !escaped && w[0] == '\\', more);
    }
  }

  /** A text without separator gets one right after the hash of the mark. */
  lemma {:induction false} SeparatorAtMark(w: string, escaped: bool, c: char)
    requires Separator(w, escaped) == None
    ensures Separator(w + MARK + [c], escaped) == Some(|w| + 1)
  {
    var s := w + MARK + [c];
    if w == [] {
      assert s == "#=" + [c] && s[1..] == "=" + [c];
    } else {
      assert s[1..] == w[1..] + MARK + [c];
      SeparatorAtMark(w[1..], !escaped && w[0] == '\\', c);
    }
  }
}
