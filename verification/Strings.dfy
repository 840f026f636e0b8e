/** The pieces of Rust's `str` the text components share. */
module Strings {
  import opened Wrappers

  lemma Associates<T>(a: seq<T>, b: seq<T>, c: seq<T>)
    ensures a + (b + c) == (a + b) + c
  {
  }

  function FindFrom(s: string, c: char, i: nat): (r: Option<nat>)
    requires i <= |s|
    ensures r.Some? ==> i <= r.value < |s| && s[r.value] == c && forall j | i <= j < r.value :: s[j] != c
    ensures r.None? ==> forall j | i <= j < |s| :: s[j] != c
    decreases |s| - i
  {
    if i == |s| then None else if s[i] == c then Some(i) else FindFrom(s, c, i + 1)
  }

  /** `str::find` for one character. */
  function Find(s: string, c: char): (r: Option<nat>)
    ensures r.Some? ==> r.value < |s| && s[r.value] == c && c !in s[..r.value]
    ensures r.None? ==> c !in s
  {
    FindFrom(s, c, 0)
  }

  lemma FindIs(s: string, c: char, i: nat)
    requires i < |s| && s[i] == c && c !in s[..i]
    ensures Find(s, c) == Some(i)
  {
    var r := FindFrom(s, c, 0);
    assert r.Some? && s[i] == c;
    assert forall j | 0 <= j < i :: s[j] == s[..i][j];
  }

  /** `char::is_whitespace`: the Unicode property White_Space. */
  predicate IsWhitespace(c: char) {
    var u := c as int;
    || 0x09 <= u <= 0x0D || u == 0x20 || u == 0x85 || u == 0xA0 || u == 0x1680 || 0x2000 <= u <= 0x200A
    || u == 0x2028 || u == 0x2029 || u == 0x202F || u == 0x205F || u == 0x3000
  }

  /** The 25 characters of that property, one by one. */
  lemma WhitespaceExactly(c: char)
    ensures IsWhitespace(c) <==> c as int in {
      9, 10, 11, 12, 13, 32, 133, 160, 5760, 8192, 8193, 8194, 8195, 8196, 8197, 8198, 8199, 8200, 8201, 8202,
      8232, 8233, 8239, 8287, 12288}
  {
  }

  predicate Blank(s: string) {
    forall k | 0 <= k < |s| :: IsWhitespace(s[k])
  }

  function TrimStart(s: string): (r: string)
    ensures r == [] || !IsWhitespace(r[0])
    ensures r == [] <==> Blank(s)
  {
    if s != [] && IsWhitespace(s[0]) then
      assert s == [s[0]] + s[1..];
      TrimStart(s[1..])
    else s
  }

  function TrimEnd(s: string): (r: string)
    ensures r == [] || !IsWhitespace(r[|r| - 1])
    ensures r == [] <==> Blank(s)
  {
    if s != [] && IsWhitespace(s[|s| - 1]) then
      assert s == s[..|s| - 1] + [s[|s| - 1]];
      TrimEnd(s[..|s| - 1])
    else s
  }

  /** Trimming cuts off blanks and nothing else. */
  lemma {:induction false} TrimStartCuts(s: string) returns (blanks: string)
    ensures s == blanks + TrimStart(s) && Blank(blanks)
  {
    if s != [] && IsWhitespace(s[0]) {
      var rest := TrimStartCuts(s[1..]);
      assert s == [s[0]] + s[1..];
      blanks := [s[0]] + rest;
    } else {
      blanks := [];
    }
  }

  lemma {:induction false} TrimEndCuts(s: string) returns (blanks: string)
    ensures s == TrimEnd(s) + blanks && Blank(blanks)
    decreases |s|
  {
    if s != [] && IsWhitespace(s[|s| - 1]) {
      var rest := TrimEndCuts(s[..|s| - 1]);
      assert s == s[..|s| - 1] + [s[|s| - 1]];
      blanks := rest + [s[|s| - 1]];
    } else {
      blanks := [];
    }
  }

  function Trim(s: string): string {
    TrimEnd(TrimStart(s))
  }
}
