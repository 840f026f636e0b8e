/**
  Expanding a template twice (`launch/args.rs`): for which tables the second expansion never changes
  what the first one left.
  */
module ExpandingTwice {
  import opened Wrappers
  import opened Strings
  import opened Templates

  /** Expanding changes nothing. */
  predicate Stable(t: string, table: Table) {
    Expand(Tokens(t), table) == t
  }

  predicate Idempotent(s: string, table: Table) {
    Stable(Expand(Tokens(s), table), table)
  }

  /** A value that leaves its neighbours apart: it is there, and its end opens nothing. */
  predicate Solid(v: string) {
    v != [] && v[|v| - 1] != '$'
  }

  /** What is left of `s` behind its first `n` characters. */
  function Behind(s: string, n: nat): string
    requires n <= |s|
  {
    seq(|s| - n, k requires 0 <= k < |s| - n => s[n + k])
  }

  /**
    Behind an opening, `u` leads to the closing brace of the placeholder of `key`: it holds all of it,
    or it begins it and what is missing can be written out as it stands.
    */
  predicate LeadsTo(u: string, key: string, table: Table) {
    if |key| < |u| then key + "}" <= u
    else u <= key + "}" && Stable(Behind(key + "}", |u|), table)
  }

  /** After a dollar the value `v` becomes the opening of the placeholder of `key`. */
  predicate Completes(v: string, key: string, table: Table) {
    v != [] && v[0] == '{' && LeadsTo(v[1..], key, table)
  }

  predicate Known(key: string, table: Table) {
    key in table && Reachable(key)
  }

  ghost predicate AllSolid(table: Table) {
    forall key | Known(key, table) :: Solid(table[key])
  }

  /** No value completes the placeholder of a key the table knows. */
  ghost predicate NothingCompletes(table: Table) {
    forall k, key | Known(k, table) && Known(key, table) :: !Completes(table[k], key, table)
  }

  // ---------- what is stable in front of stable text ----------

  lemma ValueInFront(v: string, t: string, table: Table)
    requires NoOpening(v) && Keeps(v, t) && Stable(t, table)
    ensures Stable(v + t, table)
  {
    TextInFront(v, t);
    ExpandConcat(Texts(v), Tokens(t), table);
    TextsExpand(v, table);
  }

  lemma HoleExpands(key: string, t: string, table: Table)
    requires Reachable(key)
    ensures Expand(Tokens("${" + key + "}" + t), table) == ExpandOne(Hole(key), table) + Expand(Tokens(t), table)
  {
    HoleInFront(key, t);
    assert ([Hole(key)] + Tokens(t))[1..] == Tokens(t);
  }

  lemma UnknownInFront(key: string, t: string, table: Table)
    requires Reachable(key) && key !in table
    ensures Stable("${" + key + "}" + t, table) <==> Stable(t, table)
  {
    HoleExpands(key, t, table);
    SameFront("${" + key + "}", Expand(Tokens(t), table), t);
  }

  lemma SameFront(front: string, a: string, b: string)
    ensures front + a == front + b <==> a == b
  {
    if front + a == front + b { assert (front + a)[|front|..] == a && (front + b)[|front|..] == b; }
  }

  lemma CharInFrontIsStable(c: char, t: string, table: Table)
    requires !OpensAt([c] + t, 0)
    ensures Stable([c] + t, table) <==> Stable(t, table)
  {
    TextAt([c] + t, table);
    assert ([c] + t)[1..] == t;
    SameFront([c], Expand(Tokens(t), table), t);
  }

  /** A solid value without an opening is not taken for the placeholder it stands for. */
  lemma KnownIsNotStable(key: string, t: string, table: Table)
    requires Known(key, table) && NoOpening(table[key]) && Solid(table[key])
    ensures !Stable("${" + key + "}" + t, table)
  {
    HoleExpands(key, t, table);
    var v, rest := table[key], Expand(Tokens(t), table);
    assert !OpensAt(v, 0);
    var a, b := v + rest, "${" + key + "}" + t;
    assert a[0] == v[0] && b[0] == '$' && b[1] == '{';
    assert |v| >= 2 ==> a[1] == v[1];
  }

  lemma HoleSplits(t: string, end: nat)
    requires OpensAt(t, 0) && Find(t[2..], '}') == Some(end)
    ensures var key := t[2..][..end];
      Reachable(key) && t == "${" + key + "}" + t[2..][end + 1..] && Find(t, '}') == Some(end + 2)
  {
    assert t == "${" + t[2..];
    FindIs(t, '}', end + 2);
  }

  /** Cut behind its first closing brace, stable text falls into two stable parts. */
  lemma {:induction false} CutBehindBrace(t: string, end: nat, table: Table)
    requires NoOpenings(table) && AllSolid(table) && Stable(t, table) && Find(t, '}') == Some(end)
    ensures Stable(t[..end + 1], table) && Stable(t[end + 1..], table)
    decreases |t|
  {
    if OpensAt(t, 0) {
      CutBehindHole(t, end, table);
    } else {
      var c, more := t[0], t[1..];
      assert t == [c] + more;
      CharInFrontIsStable(c, more, table);
      if c == '}' {
        FindIs(t, '}', 0);
        assert t[..1] == [c] + [] && !OpensAt([c] + [], 0);
        CharInFrontIsStable(c, [], table);
      } else {
        FindBehindChar(c, more, end);
        CutBehindBrace(more, end - 1, table);
        var front := more[..end];
        assert t[..end + 1] == [c] + front && t[end + 1..] == more[end..];
        assert !OpensAt([c] + front, 0);
        CharInFrontIsStable(c, front, table);
      }
    }
  }

  lemma FindBehindChar(c: char, more: string, end: nat)
    requires c != '}' && Find([c] + more, '}') == Some(end)
    ensures end > 0 && Find(more, '}') == Some(end - 1)
  {
    var t := [c] + more;
    assert t[0] == c && t[end] == more[end - 1];
    forall j | 0 <= j < end - 1 ensures more[j] != '}' { assert t[j + 1] == more[j]; }
    FindIs(more, '}', end - 1);
  }

  lemma CutBehindHole(t: string, end: nat, table: Table)
    requires NoOpenings(table) && AllSolid(table) && Stable(t, table) && Find(t, '}') == Some(end) && OpensAt(t, 0)
    ensures Stable(t[..end + 1], table) && Stable(t[end + 1..], table)
  {
    var key, rest := OpenHole(t, end);
    if key in table { KnownIsNotStable(key, rest, table); }
    UnknownInFront(key, rest, table);
    UnknownInFront(key, [], table);
  }

  lemma OpenHole(t: string, end: nat) returns (key: string, rest: string)
    requires OpensAt(t, 0) && Find(t, '}') == Some(end)
    ensures Reachable(key) && t == "${" + key + "}" + rest
    ensures t[..end + 1] == "${" + key + "}" + [] && t[end + 1..] == rest
  {
    key, rest := t[2..end], t[end + 1..];
    assert forall c | c in key :: c in t[..end];
  }

  // ---------- a dollar in front of a value that starts with a brace ----------

  /** Behind an opening, `u` and then `t` lead to no placeholder the table knows. */
  ghost predicate LeadsNowhere(u: string, table: Table) {
    forall key | Known(key, table) :: !LeadsTo(u, key, table)
  }

  lemma NeverClosed(after: string, table: Table)
    requires Find(after, '}') == None
    ensures Stable("${" + after, table)
  {
    assert ("${" + after)[2..] == after;
    TailAt("${" + after, table);
  }

  lemma OpeningAssociates(after: string, key: string, rest: string)
    requires after == (key + "}") + rest
    ensures "${" + after == "${" + key + "}" + rest
  {
  }

  lemma UnknownOpened(after: string, key: string, rest: string, table: Table)
    requires after == (key + "}") + rest && Reachable(key) && key !in table && Stable(rest, table)
    ensures Stable("${" + after, table)
  {
    OpeningAssociates(after, key, rest);
    UnknownInFront(key, rest, table);
  }

  lemma OpenedByValue(u: string, t: string, table: Table)
    requires NoOpenings(table) && AllSolid(table) && Stable(t, table)
    requires NoOpening(u) && (u != [] ==> Solid(u)) && LeadsNowhere(u, table)
    ensures Stable("${" + (u + t), table)
  {
    match Find(u + t, '}')
    case None => NeverClosed(u + t, table);
    case Some(end) =>
      var key, rest := SplitAtBrace(u + t, end);
      ClosedBehind(u, t, key, rest, table);
      UnknownOpened(u + t, key, rest, table);
  }

  lemma SplitAtBrace(after: string, end: nat) returns (key: string, rest: string)
    requires Find(after, '}') == Some(end)
    ensures Reachable(key) && after == (key + "}") + rest
  {
    key, rest := after[..end], after[end + 1..];
  }

  /** The placeholder that is closed behind `u` is unknown, and stable text follows. */
  lemma ClosedBehind(u: string, t: string, key: string, rest: string, table: Table)
    requires NoOpenings(table) && AllSolid(table) && Stable(t, table)
    requires NoOpening(u) && (u != [] ==> Solid(u)) && LeadsNowhere(u, table)
    requires Reachable(key) && u + t == (key + "}") + rest
    ensures key !in table && Stable(rest, table)
  {
    if |key| < |u| {
      var more := ClosedInValue(u, t, key, rest);
      ValueInFront(more, t, table);
    } else {
      var front := ClosedInText(u, t, key, rest);
      CutStable(t, front, rest, table);
      BehindAppended(u, front);
    }
    assert key in table ==> LeadsTo(u, key, table);
  }

  lemma ClosedInValue(u: string, t: string, key: string, rest: string) returns (more: string)
    requires |key| < |u| && u + t == (key + "}") + rest && NoOpening(u) && (u != [] ==> Solid(u))
    ensures key + "}" <= u && rest == more + t && NoOpening(more) && Keeps(more, t)
  {
    var k := |key| + 1;
    more := u[k..];
    assert u == (u + t)[..|u|] && key + "}" == (u + t)[..k];
    assert (u + t)[k..] == more + t && ((key + "}") + rest)[k..] == rest;
    NoOpeningPart(u, k, more);
  }

  lemma ClosedInText(u: string, t: string, key: string, rest: string) returns (front: string)
    requires |key| >= |u| && u + t == (key + "}") + rest && Reachable(key)
    ensures u + front == key + "}" && t == front + rest
    ensures front != [] && front[|front| - 1] == '}' && '}' !in front[..|front| - 1]
  {
    var all := key + "}";
    front := all[|u|..];
    assert u == (u + t)[..|u|] == all[..|u|];
    assert t == (u + t)[|u|..] == (all + rest)[|u|..] == front + rest;
    assert front[..|front| - 1] == key[|u|..];
  }

  lemma BehindAppended(u: string, front: string)
    ensures Behind(u + front, |u|) == front
  {
  }

  lemma CutStable(t: string, front: string, rest: string, table: Table)
    requires NoOpenings(table) && AllSolid(table) && Stable(t, table) && t == front + rest
    requires front != [] && front[|front| - 1] == '}' && '}' !in front[..|front| - 1]
    ensures Stable(front, table) && Stable(rest, table)
  {
    var end := |front| - 1;
    assert t[..end] == front[..end] && t[..end + 1] == front && t[end + 1..] == rest;
    FindIs(t, '}', end);
    CutBehindBrace(t, end, table);
  }

  lemma NoOpeningPart(v: string, k: nat, part: string)
    requires NoOpening(v) && k <= |v| && part == v[k..]
    ensures NoOpening(part)
  {
    forall j: nat ensures !OpensAt(part, j) { assert !OpensAt(v, j + k); }
  }

  // ---------- with nothing to complete, expansion is idempotent ----------

  /** A brace that expansion puts first is the first character of a value. */
  lemma BraceFromValue(s: string, table: Table) returns (key: string, more: string)
    requires AllSolid(table) && (s != [] ==> s[0] != '{')
    requires var out := Expand(Tokens(s), table); out != [] && out[0] == '{'
    ensures s == "${" + key + "}" + more && Known(key, table) && table[key][0] == '{'
  {
    if OpensAt(s, 0) {
      match Find(s[2..], '}')
      case None => TailAt(s, table);
      case Some(end) =>
        HoleSplits(s, end);
        key, more := s[2..][..end], s[2..][end + 1..];
        HoleExpands(key, more, table);
        assert key in table ==> Solid(table[key]) by { assert key in table ==> Known(key, table); }
    } else {
      TextAt(s, table);
    }
  }

  lemma DollarThenBrace(u: string, t: string)
    ensures "$" + (("{" + u) + t) == "${" + (u + t)
  {
  }

  /** A dollar, and behind it a placeholder whose value starts with a brace. */
  lemma BraceBehindDollar(rest: string, key: string, more: string, table: Table)
    requires NoOpenings(table) && AllSolid(table) && NothingCompletes(table)
    requires rest == "${" + key + "}" + more && Known(key, table) && table[key][0] == '{' && Idempotent(more, table)
    ensures Stable("$" + Expand(Tokens(rest), table), table)
  {
    HoleExpands(key, more, table);
    var u := AfterBrace(key, table);
    var t := Expand(Tokens(more), table);
    OpenedByValue(u, t, table);
    DollarThenBrace(u, t);
  }

  lemma OpeningByChar(s: string, c: char, rest: string, out: string)
    requires s == [c] + rest && !OpensAt(s, 0) && OpensAt([c] + out, 0)
    ensures [c] == "$" && out != [] && out[0] == '{' && (rest != [] ==> rest[0] != '{')
  {
    assert ([c] + out)[1] == out[0] && (rest != [] ==> s[1] == rest[0]);
  }

  lemma {:induction false} ExpandsOnce(s: string, table: Table)
    requires NoOpenings(table) && AllSolid(table) && NothingCompletes(table)
    ensures Idempotent(s, table)
    decreases |s|, 1
  {
    if s == [] {
    } else if OpensAt(s, 0) {
      HoleExpandsOnce(s, table);
    } else {
      CharExpandsOnce(s, s[0], s[1..], table);
    }
  }

  lemma {:induction false} CharExpandsOnce(s: string, c: char, rest: string, table: Table)
    requires NoOpenings(table) && AllSolid(table) && NothingCompletes(table)
    requires s == [c] + rest && !OpensAt(s, 0)
    ensures Idempotent(s, table)
    decreases |s|, 0
  {
    var out := Expand(Tokens(rest), table);
    CharExpands(s, c, rest, table);
    ExpandsOnce(rest, table);
    if OpensAt([c] + out, 0) {
      OpeningByChar(s, c, rest, out);
      var key, more := BraceFromValue(rest, table);
      ExpandsOnce(more, table);
      BraceBehindDollar(rest, key, more, table);
    } else {
      CharInFrontIsStable(c, out, table);
    }
  }

  lemma CharExpands(s: string, c: char, rest: string, table: Table)
    requires s == [c] + rest && !OpensAt(s, 0)
    ensures Expand(Tokens(s), table) == [c] + Expand(Tokens(rest), table)
  {
    TextAt(s, table);
    assert s[1..] == rest;
  }

  lemma AfterBrace(key: string, table: Table) returns (u: string)
    requires NoOpenings(table) && AllSolid(table) && NothingCompletes(table)
    requires Known(key, table) && table[key][0] == '{'
    ensures table[key] == "{" + u && NoOpening(u) && (u != [] ==> Solid(u)) && LeadsNowhere(u, table)
  {
    var v := table[key];
    u := v[1..];
    assert v == "{" + u && Solid(v);
    NoOpeningPart(v, 1, u);
    forall k | Known(k, table) ensures !LeadsTo(u, k, table) { assert !Completes(v, k, table); }
  }

  lemma {:induction false} HoleExpandsOnce(s: string, table: Table)
    requires NoOpenings(table) && AllSolid(table) && NothingCompletes(table) && OpensAt(s, 0)
    ensures Idempotent(s, table)
    decreases |s|, 0
  {
    match Find(s[2..], '}')
    case None => TailAt(s, table);
    case Some(end) =>
      HoleSplits(s, end);
      var key, rest := s[2..][..end], s[2..][end + 1..];
      HoleExpands(key, rest, table);
      ExpandsOnce(rest, table);
      var out := Expand(Tokens(rest), table);
      if key in table {
        assert Known(key, table);
        ValueInFront(table[key], out, table);
      } else {
        UnknownInFront(key, out, table);
      }
  }

  // ---------- templates whose second expansion differs ----------

  /** A placeholder alone in front of text without an opening does change. */
  lemma KnownChanges(front: string, key: string, text: string, table: Table)
    requires Known(key, table) && NoOpenings(table) && NoOpening(front) && NoOpening(text)
    ensures !Stable(front + ("${" + key + "}" + text), table)
  {
    var hole := "${" + key + "}" + text;
    TextInFront(front, hole);
    TextsExpand(front, table);
    ExpandConcat(Texts(front), Tokens(hole), table);
    HoleThenText(key, text, table);
    NoOpeningDiffers(front, table[key], key, text);
  }

  lemma DollarInFront(key: string, more: string, table: Table)
    requires Known(key, table)
    ensures Expand(Tokens("$" + ("${" + key + "}" + more)), table) == "$" + (table[key] + Expand(Tokens(more), table))
  {
    var s := "${" + key + "}" + more;
    assert ("$" + s)[1..] == s;
    TextAt("$" + s, table);
    HoleExpands(key, more, table);
  }

  /** Some known key can be written between braces and stays as it is. */
  lemma {:induction false} WritableKey(key: string, table: Table) returns (target: string)
    requires Known(key, table)
    ensures Known(target, table) && Stable("{" + target + "}", table)
    decreases |key|
  {
    var text := "{" + key + "}";
    match FindOpen(text)
    case None =>
      target := key;
      NoOpeningFound(text);
      assert text + [] == text;
      ValueInFront(text, [], table);
    case Some(start) =>
      var inner := OpeningInBraces(key, start);
      if inner in table {
        target := WritableKey(inner, table);
      } else {
        target := key;
        UnknownInBraces(text, start, inner, table);
      }
  }

  lemma NoOpeningFound(text: string)
    requires FindOpen(text) == None
    ensures NoOpening(text)
  {
    forall j: nat ensures !OpensAt(text, j) { if OpensAt(text, j) { FindOpenIsFirst(text, j); } }
  }

  /** What a key written between braces opens. */
  lemma OpeningInBraces(key: string, start: nat) returns (inner: string)
    requires Reachable(key) && FindOpen("{" + key + "}") == Some(start)
    ensures Reachable(inner) && |inner| < |key| && "{" + key + "}" == ("{" + key + "}")[..start] + ("${" + inner + "}" + [])
  {
    var text := "{" + key + "}";
    assert OpensAt(text, start) && start > 0 && start + 1 < |key| + 1;
    inner := key[start + 1..];
    assert text[start + 2..] == inner + "}";
    assert text == text[..start] + ("${" + (inner + "}"));
  }

  lemma UnknownInBraces(text: string, start: nat, inner: string, table: Table)
    requires FindOpen(text) == Some(start) && Reachable(inner) && inner !in table
    requires text == text[..start] + ("${" + inner + "}" + [])
    ensures Stable(text, table)
  {
    var front, hole := text[..start], "${" + inner + "}" + [];
    forall j: nat ensures !OpensAt(front, j) { if OpensAt(front, j) { FindOpenIsFirst(text, j); } }
    UnknownInFront(inner, [], table);
    ValueInFront(front, hole, table);
  }

  lemma DollarBraces(target: string)
    ensures "$" + ([] + ("{" + target + "}")) == "${" + target + "}" == [] + ("${" + target + "}" + [])
  {
  }

  /** An empty value: `$${key}{target}` becomes `${target}`, and that is expanded the second time. */
  lemma EmptyValueExpandsAgain(key: string, target: string, table: Table)
    requires Known(key, table) && table[key] == [] && NoOpenings(table)
    requires Known(target, table) && Stable("{" + target + "}", table)
    ensures var s := "$" + ("${" + key + "}" + ("{" + target + "}"));
      Expand(Tokens(s), table) == "${" + target + "}" && !Idempotent(s, table)
  {
    DollarBraces(target);
    DollarInFront(key, "{" + target + "}", table);
    KnownChanges([], target, [], table);
  }

  lemma BehindDollar(front: string, target: string)
    ensures (front + "$") + ("{" + target + "}") == front + ("${" + target + "}" + [])
  {
  }

  /** A value that ends in a dollar: `${key}{target}` becomes the rest of the value and `${target}`. */
  lemma TrailingDollarExpandsAgain(key: string, front: string, target: string, table: Table)
    requires Known(key, table) && NoOpenings(table) && table[key] == front + "$" && NoOpening(front)
    requires Known(target, table) && Stable("{" + target + "}", table)
    ensures !Idempotent("${" + key + "}" + ("{" + target + "}"), table)
  {
    BehindDollar(front, target);
    HoleExpands(key, "{" + target + "}", table);
    KnownChanges(front, target, [], table);
  }

  lemma BeforeDollar(v: string) returns (front: string)
    requires v != [] && v[|v| - 1] == '$' && NoOpening(v)
    ensures v == front + "$" && NoOpening(front)
  {
    front := v[..|v| - 1];
    forall j: nat ensures !OpensAt(front, j) { assert !OpensAt(v, j); }
  }

  /** A value after a dollar, with what completes it behind: the placeholder of `target` and a rest. */
  lemma CompletedExpandsAgain(key: string, target: string, more: string, rest: string, table: Table)
    requires Known(key, table) && Known(target, table) && NoOpenings(table) && AllSolid(table)
    requires Stable(more, table) && "$" + (table[key] + more) == "${" + target + "}" + rest
    ensures !Idempotent("$" + ("${" + key + "}" + more), table)
  {
    DollarInFront(key, more, table);
    KnownIsNotStable(target, rest, table);
  }

  lemma BehindPrefix(a: string, b: string)
    requires a <= b
    ensures b == a + Behind(b, |a|)
  {
  }

  lemma DollarBehindBrace(u: string, more: string, target: string, rest: string)
    requires u + more == (target + "}") + rest
    ensures "$" + (("{" + u) + more) == "${" + target + "}" + rest
  {
    DollarThenBrace(u, more);
    assert "${" + ((target + "}") + rest) == "${" + target + "}" + rest;
  }

  lemma CompletionOf(v: string, target: string, table: Table) returns (more: string, rest: string)
    requires Completes(v, target, table)
    ensures Stable(more, table) && "$" + (v + more) == "${" + target + "}" + rest
  {
    var u, all := v[1..], target + "}";
    assert v == "{" + u;
    if |target| < |u| {
      more, rest := [], Behind(u, |all|);
      BehindPrefix(all, u);
      assert u + [] == u;
    } else {
      more, rest := Behind(all, |u|), [];
      BehindPrefix(u, all);
      assert all + [] == all;
    }
    DollarBehindBrace(u, more, target, rest);
  }

  lemma UnsolidExpandsAgain(table: Table) returns (s: string)
    requires NoOpenings(table) && !AllSolid(table)
    ensures !Idempotent(s, table)
  {
    var key :| Known(key, table) && !Solid(table[key]);
    var target := WritableKey(key, table);
    if table[key] == [] {
      EmptyValueExpandsAgain(key, target, table);
      s := "$" + ("${" + key + "}" + ("{" + target + "}"));
    } else {
      var front := BeforeDollar(table[key]);
      TrailingDollarExpandsAgain(key, front, target, table);
      s := "${" + key + "}" + ("{" + target + "}");
    }
  }

  lemma CompletingExpandsAgain(table: Table) returns (s: string)
    requires NoOpenings(table) && AllSolid(table) && !NothingCompletes(table)
    ensures !Idempotent(s, table)
  {
    var k, key :| Known(k, table) && Known(key, table) && Completes(table[k], key, table);
    var more, rest := CompletionOf(table[k], key, table);
    CompletedExpandsAgain(k, key, more, rest, table);
    s := "$" + ("${" + k + "}" + more);
  }

  /**
    For tables whose values open no placeholder themselves: expanding any template a second time
    changes nothing exactly when every reachable value is non-empty, does not end in a dollar, and
    completes the placeholder of no key the table knows.
    */
  lemma EveryTemplateExpandsOnceExactly(table: Table)
    requires NoOpenings(table)
    ensures (forall s :: Idempotent(s, table)) <==> AllSolid(table) && NothingCompletes(table)
  {
    if !AllSolid(table) {
      var s := UnsolidExpandsAgain(table);
    } else if !NothingCompletes(table) {
      var s := CompletingExpandsAgain(table);
    } else {
      forall s ensures Idempotent(s, table) { ExpandsOnce(s, table); }
    }
  }

  const BRACED: Table := map["k" := "{zzz}"]

  lemma BracedIsQuiet()
    ensures NoOpenings(BRACED) && AllSolid(BRACED) && NothingCompletes(BRACED)
  {
    var v := "{zzz}";
    assert v[1..] == "zzz}" && "k}"[0] != "zzz}"[0];
    assert !LeadsTo(v[1..], "k", BRACED);
    forall key | Known(key, BRACED) ensures NoOpening(BRACED[key]) && Solid(BRACED[key]) { assert key == "k"; }
  }

  /** A value in braces that completes nothing: expanding twice is expanding once, though not all is settled. */
  lemma IdempotentButUnsettled()
    ensures (forall s :: Idempotent(s, BRACED)) && exists s :: !Settles(s, BRACED)
  {
    BracedIsQuiet();
    EveryTemplateExpandsOnceExactly(BRACED);
    assert !Inert(BRACED["k"]) && Reachable("k");
    EveryTemplateSettlesExactly(BRACED);
  }
}
