/**
  The lines of a catalogue that are not a plain entry (`i18n/catalog.rs`): comments, continuations, line
  ends, and the lines that are reported.
  */
module CatalogLines {
  import opened Wrappers
  import opened Strings
  import opened CatalogReader
  import opened CatalogSyntax
  import opened Catalogs
  import opened CatalogDocuments

  /** One line, without its line end. */
  predicate IsLine(s: string) {
    '\n' !in s && '\r' !in s
  }

  lemma LineStays(line: string)
    requires IsLine(line)
    ensures StripCr(line) == line && TrimLine(line) == TrimStart(line)
  {
    if line != "" { assert line[|line| - 1] in line; }
  }

  lemma NoBomInFront(line: string, more: string)
    requires !StartsWithBom(line)
    ensures StripBom(line + "\n" + more) == line + "\n" + more
  {
    if line != "" { assert (line + "\n" + more)[0] == line[0]; }
  }

  /** What the reader makes of the first line of a document, and what it makes of the rest. */
  lemma ContentsOfFirst(x: Syntax, line: string, more: string)
    requires IsLine(line) && !StartsWithBom(line)
    ensures ContentsBy(x, line + "\n" + more) ==
      Finish(x, Read(x, Step(x, EMPTY, TrimStart(line), 0), TrimmedLines(more), 1))
  {
    LineStays(line);
    NoBomInFront(line, more);
    FirstLineOf(line, more);
    ReadFirst(x, EMPTY, TrimStart(line), TrimmedLines(more), 0);
  }

  lemma ContentsOfOne(x: Syntax, line: string)
    requires IsLine(line) && !StartsWithBom(line)
    ensures ContentsBy(x, line) == if line == "" then EMPTY else Finish(x, Step(x, EMPTY, TrimStart(line), 0))
  {
    assert StripBom(line) == line;
    if line == "" {
      assert TrimmedLines("") == [];
    } else {
      LineStays(line);
      OneLine(line);
      ReadOne(x, EMPTY, TrimStart(line), 0);
    }
  }

  // ---------- comments, line ends and the byte order mark ----------

  /** A blank line, or one whose first character is `#` or `!`. */
  predicate IsComment(line: string) {
    TrimStart(line) == "" || TrimStart(line)[0] == '#' || TrimStart(line)[0] == '!'
  }

  /** Comments and blank lines leave no trace among the entries. */
  lemma CommentIsSkipped(line: string, more: string)
    requires IsLine(line) && !StartsWithBom(line) && IsComment(line) && !StartsWithBom(more)
    ensures EntriesOf(line + "\n" + more) == EntriesOf(more)
  {
    SkippedBy(PROPERTIES, line, more);
  }

  lemma SkippedBy(x: Syntax, line: string, more: string)
    requires IsLine(line) && !StartsWithBom(line) && IsComment(line) && !StartsWithBom(more)
    ensures ContentsBy(x, line + "\n" + more).entries == ContentsBy(x, more).entries
  {
    ContentsOfFirst(x, line, more);
    assert StripBom(more) == more;
    OverNothing(EMPTY.entries);
    ReadLike(x, EMPTY, EMPTY, map[], TrimmedLines(more), 1, 0);
    FinishLike(x, Read(x, EMPTY, TrimmedLines(more), 1), Read(x, EMPTY, TrimmedLines(more), 0), map[]);
    OverNothing(ContentsBy(x, more).entries);
  }

  /** A carriage return before the line feed does not count, nor does a byte order mark at the front. */
  lemma LineEndsDoNotCount(line: string, more: string)
    requires IsLine(line) && !StartsWithBom(line)
    ensures Contents(line + "\r\n" + more) == Contents(line + "\n" + more)
    ensures Contents("\U{FEFF}" + (line + "\n" + more)) == Contents(line + "\n" + more)
  {
    CrLfTrimmed(line, more);
    SameTrimmed(PROPERTIES, line + "\r\n" + more, line + "\n" + more);
    MarkTrimmed(line, more);
    SameTrimmed(PROPERTIES, "\U{FEFF}" + (line + "\n" + more), line + "\n" + more);
  }

  lemma SameTrimmed(x: Syntax, a: string, b: string)
    requires TrimmedLines(StripBom(a)) == TrimmedLines(StripBom(b))
    ensures ContentsBy(x, a) == ContentsBy(x, b)
  {
  }

  lemma CrLfTrimmed(line: string, more: string)
    requires IsLine(line) && !StartsWithBom(line)
    ensures TrimmedLines(StripBom(line + "\r\n" + more)) == TrimmedLines(StripBom(line + "\n" + more))
  {
    var cr := line + "\r";
    assert line + "\r\n" + more == cr + "\n" + more;
    assert !StartsWithBom(cr) by { assert line != "" ==> cr[0] == line[0]; }
    NoBomInFront(line, more);
    NoBomInFront(cr, more);
    assert StripCr(cr) == line;
    LineStays(line);
    FirstLineOf(line, more);
    FirstLineOf(cr, more);
  }

  lemma MarkTrimmed(line: string, more: string)
    requires IsLine(line) && !StartsWithBom(line)
    ensures StripBom("\U{FEFF}" + (line + "\n" + more)) == StripBom(line + "\n" + more)
  {
    NoBomInFront(line, more);
    assert ("\U{FEFF}" + (line + "\n" + more))[1..] == line + "\n" + more;
  }

  // ---------- lines that are reported ----------

  /** A line of its own that is no comment and asks for no other line. */
  predicate StandsAlone(line: string) {
    IsLine(line) && !StartsWithBom(line) && !IsComment(line) && !EndsOpen(TrimStart(line))
  }

  /** A line without `=` is reported with its number and its text, one without a key with its number. */
  lemma FaultyLineIsReported(line: string)
    requires StandsAlone(line)
    ensures '=' !in line ==> Contents(line).problems == [NoSeparator(1, TrimStart(line))] && EntriesOf(line) == map[]
    ensures TrimStart(line)[0] == '=' ==> Contents(line).problems == [EmptyKey(1)] && EntriesOf(line) == map[]
  {
    var t := TrimStart(line);
    ContentsOfOne(PROPERTIES, line);
    var blanks := TrimStartCuts(line);
    if '=' !in line {
      NoEqualsNoSeparator(t, false);
    } else if t[0] == '=' {
      assert t[..0] == "";
    }
  }

  lemma {:induction false} NoEqualsNoSeparator(s: string, escaped: bool)
    requires '=' !in s
    ensures Separator(s, escaped) == None
  {
    if s != "" { NoEqualsNoSeparator(s[1..], !escaped && s[0] == '\\'); }
  }

  // ---------- continuations ----------

  /** A line that goes on: an odd backslash at its end, and something before it that is no comment. */
  predicate GoesOn(front: string) {
    IsLine(front) && !StartsWithBom(front) && !IsComment(front) && !EndsOpen(TrimStart(front))
  }

  lemma OneMoreBackslash(front: string)
    requires GoesOn(front)
    ensures TrimStart(front + "\\") == TrimStart(front) + "\\" && EndsOpen(TrimStart(front) + "\\")
    ensures IsLine(front + "\\") && !StartsWithBom(front + "\\")
  {
    TrimInFront(front, "\\");
    var t := TrimStart(front) + "\\";
    assert t[..|t| - 1] == TrimStart(front);
    if front != "" { assert (front + "\\")[0] == front[0]; }
  }

  lemma OpenStep(x: Syntax, text: string, n: nat)
    requires x.open(text) && text != [] && !Ignored(text)
    ensures Step(x, EMPTY, text, n) == State(map[], [], text[..|text| - 1], n + 1, true)
  {
  }

  /** The line a continuation makes is read as if it had been written in one. */
  lemma JoinedStep(x: Syntax, t: string, c: string, n: nat)
    requires t != [] && !Ignored(t) && c != []
    ensures Like(Step(x, State(map[], [], t, 1, true), c, n), Step(x, EMPTY, t + c, 0), map[])
  {
    assert Extended(EMPTY, t + c) == Some(t + c);
    OverNothing(map[]);
    if !(x.open(t + c)) { EnterLike(State(map[], [], t, 1, true), EMPTY, map[], t + c, 1, 1, x.parse(t + c)); }
  }

  /**
    A line that ends in an odd backslash goes on with the next one, whose leading blanks do not count:
    the entries are those of the line written in one.
    */
  lemma ContinuationJoins(front: string, blanks: string, line: string, more: string)
    requires GoesOn(front) && Margin(blanks) && IsLine(line) && line != "" && !IsWhitespace(line[0])
    ensures EntriesOf(front + "\\" + "\n" + (blanks + line + "\n" + more)) == EntriesOf(front + line + "\n" + more)
  {
    JoinedBy(PROPERTIES, front, blanks, line, more);
  }

  lemma JoinedBy(x: Syntax, front: string, blanks: string, line: string, more: string)
    requires x == PROPERTIES
    requires GoesOn(front) && Margin(blanks) && IsLine(line) && line != "" && !IsWhitespace(line[0])
    ensures ContentsBy(x, front + "\\" + "\n" + (blanks + line + "\n" + more)).entries
      == ContentsBy(x, front + line + "\n" + more).entries
  {
    var t, rest := TrimStart(front), TrimmedLines(more);
    OneMoreBackslash(front);
    ContentsOfFirst(x, front + "\\", blanks + line + "\n" + more);
    OpenStep(x, t + "\\", 0);
    assert (t + "\\")[..|t|] == t;
    SecondLine(x, State(map[], [], t, 1, true), blanks, line, more);
    JoinedFirst(x, front, line, more);
    var a, b := Step(x, State(map[], [], t, 1, true), line, 1), Step(x, EMPTY, t + line, 0);
    JoinedStep(x, t, line, 1);
    ReadLike(x, a, b, map[], rest, 2, 1);
    FinishLike(x, Read(x, a, rest, 2), Read(x, b, rest, 1), map[]);
    OverNothing(Finish(x, Read(x, b, rest, 1)).entries);
  }

  lemma SecondLine(x: Syntax, s: State, blanks: string, line: string, more: string)
    requires Margin(blanks) && IsLine(line) && line != "" && !IsWhitespace(line[0])
    ensures Read(x, s, TrimmedLines(blanks + line + "\n" + more), 1) == Read(x, Step(x, s, line, 1), TrimmedLines(more), 2)
  {
    MarginIsBlank(blanks);
    LineStays(blanks + line);
    TrimInFront(blanks, line);
    assert TrimStart(line) == line;
    FirstLineOf(blanks + line, more);
    ReadFirst(x, s, line, TrimmedLines(more), 1);
  }

  lemma JoinedFirst(x: Syntax, front: string, line: string, more: string)
    requires GoesOn(front) && IsLine(line) && line != "" && !IsWhitespace(line[0])
    ensures ContentsBy(x, front + line + "\n" + more) ==
      Finish(x, Read(x, Step(x, EMPTY, TrimStart(front) + line, 0), TrimmedLines(more), 1))
  {
    TrimInFront(front, line);
    assert front != "" && (front + line)[0] == front[0];
    ContentsOfFirst(x, front + line, more);
  }

  /** A fault in a continued line is reported with the number of the line it began on. */
  lemma ContinuedFaultIsReported(front: string, blanks: string, line: string)
    requires GoesOn(front) && Margin(blanks) && IsLine(line) && line != "" && !IsWhitespace(line[0])
    requires '=' !in TrimStart(front) + line && !EndsOpen(TrimStart(front) + line)
    ensures Contents(front + "\\" + "\n" + (blanks + line + "\n" + "")).problems == [NoSeparator(1, TrimStart(front) + line)]
  {
    var t := TrimStart(front);
    NoEqualsNoSeparator(t + line, false);
    FaultBy(PROPERTIES, front, blanks, line);
  }

  lemma FaultBy(x: Syntax, front: string, blanks: string, line: string)
    requires x == PROPERTIES
    requires GoesOn(front) && Margin(blanks) && IsLine(line) && line != "" && !IsWhitespace(line[0])
    requires x.parse(TrimStart(front) + line) == NoEntry && !x.open(TrimStart(front) + line)
    ensures ContentsBy(x, front + "\\" + "\n" + (blanks + line + "\n" + "")).problems == [NoSeparator(1, TrimStart(front) + line)]
  {
    var t := TrimStart(front);
    OneMoreBackslash(front);
    ContentsOfFirst(x, front + "\\", blanks + line + "\n" + "");
    OpenStep(x, t + "\\", 0);
    assert (t + "\\")[..|t|] == t;
    SecondLine(x, State(map[], [], t, 1, true), blanks, line, "");
    assert TrimmedLines("") == [];
  }

  /** A continuation with nothing behind it is reported, and what there is counts. */
  lemma DanglingIsReported(front: string)
    requires GoesOn(front)
    ensures EntriesOf(front + "\\") == EntriesOf(front) && Contents(front + "\\").problems == [Dangling]
  {
    DanglingBy(PROPERTIES, front);
  }

  lemma DanglingBy(x: Syntax, front: string)
    requires x == PROPERTIES && GoesOn(front)
    ensures ContentsBy(x, front + "\\").entries == ContentsBy(x, front).entries
    ensures ContentsBy(x, front + "\\").problems == [Dangling]
  {
    var t := TrimStart(front);
    OneMoreBackslash(front);
    ContentsOfOne(x, front + "\\");
    ContentsOfOne(x, front);
    OpenStep(x, t + "\\", 0);
    assert (t + "\\")[..|t|] == t;
    StepComplete(x, EMPTY, t, t, 0);
  }

  // ---------- escapes that are kept ----------

  /** A character that is no hexadecimal digit. */
  predicate NoDigit(c: char) {
    var v := c as int;
    !(48 <= v <= 57) && !(65 <= v <= 70) && !(97 <= v <= 102)
  }

  lemma NotFour(rest: string)
    requires |rest| < 4 || NoDigit(rest[0]) || NoDigit(rest[1]) || NoDigit(rest[2]) || NoDigit(rest[3])
    ensures !FourHex(rest)
  {
  }

  lemma EscapedAs(s: string, chars: string, taken: nat, rest: string)
    requires |s| > 1 && s[0] == '\\' && Escape(s[1..]) == (chars, taken) && s[1 + taken..] == rest
    ensures Unescape(s) == chars + Unescape(rest)
  {
  }

  lemma MalformedIs(s: string, rest: string)
    requires s == "u" + rest && !FourHex(rest)
    ensures Escape(s) == ("\\u", 1)
  {
    assert s[1..] == rest;
  }

  lemma MalformedFrom(s: string, rest: string)
    requires |s| == |rest| + 2 && s[0] == '\\' && s[1] == 'u' && s[2..] == rest && !FourHex(rest)
    ensures Unescape(s) == "\\u" + Unescape(rest)
  {
    assert s[1..] == "u" + rest;
    MalformedIs(s[1..], rest);
    EscapedAs(s, "\\u", 1, rest);
  }

  /** `\u` without four hexadecimal digits, and one of a surrogate, stay as written; so does a last backslash. */
  lemma MalformedEscapeStays(rest: string)
    requires |rest| < 4 || NoDigit(rest[0]) || NoDigit(rest[1]) || NoDigit(rest[2]) || NoDigit(rest[3])
    ensures Unescape("\\u" + rest) == "\\u" + Unescape(rest)
  {
    NotFour(rest);
    MalformedFrom("\\u" + rest, rest);
  }

  lemma SurrogateStays(digits: string, a: nat, b: nat, d: nat, e: nat, rest: string)
    requires |digits| == 4 && HexDigit(digits[0], a) && HexDigit(digits[1], b) && HexDigit(digits[2], d) && HexDigit(digits[3], e)
    requires 0xD800 <= 16 * (16 * (16 * a + b) + d) + e <= 0xDFFF
    ensures Unescape("\\u" + digits + rest) == "\\u" + digits + Unescape(rest)
  {
    var s := "\\u" + digits + rest;
    HexDigitIs(digits[0], a);
    HexDigitIs(digits[1], b);
    HexDigitIs(digits[2], d);
    HexDigitIs(digits[3], e);
    assert s[1..][1..5] == digits && s[1..][1..][..4] == digits && s[6..] == rest;
  }

  lemma LastBackslashStays()
    ensures Unescape("\\") == "\\"
  {
  }
}
