/**
  Launch-argument templates (`launch/args.rs`): two independent scanners of the `${key}` grammar,
  measured against one token stream, and the pruner that drops what stays unresolved.
  */
module Templates {
  import opened Wrappers
  import opened Strings

  type Table = map<string, string>

  // ---------- the grammar ----------

  predicate OpensAt(s: string, i: nat) {
    i + 1 < |s| && s[i] == '$' && s[i + 1] == '{'
  }

  /** `str::find` for an opening `${`. */
  function FindOpen(s: string): (r: Option<nat>)
    ensures r.Some? ==> OpensAt(s, r.value)
  {
    if s == [] then None
    else if OpensAt(s, 0) then Some(0)
    else match FindOpen(s[1..])
         case Some(i) => Some(i + 1)
         case None => None
  }

  lemma {:induction false} FindOpenIsFirst(s: string, j: nat)
    requires OpensAt(s, j)
    ensures FindOpen(s).Some? && FindOpen(s).value <= j
  {
    if !OpensAt(s, 0) { FindOpenIsFirst(s[1..], j - 1); }
  }

  /** One copied character, one closed placeholder, or the rest after an opening never closed. */
  datatype Token = Text(c: char) | Hole(key: string) | Tail(rest: string)

  function Tokens(s: string): seq<Token> {
    if s == [] then []
    else if OpensAt(s, 0) then
      match Find(s[2..], '}')
      case Some(end) => [Hole(s[2..][..end])] + Tokens(s[2..][end + 1..])
      case None => [Tail(s)]
    else [Text(s[0])] + Tokens(s[1..])
  }

  function Expand(tokens: seq<Token>, table: Table): string {
    if tokens == [] then []
    else ExpandOne(tokens[0], table) + Expand(tokens[1..], table)
  }

  function ExpandOne(token: Token, table: Table): string {
    match token
    case Text(c) => [c]
    case Hole(key) => if key in table then table[key] else "${" + key + "}"
    case Tail(rest) => rest
  }

  /** The keys of the placeholders the table does not know, in order. */
  function Missing(tokens: seq<Token>, table: Table): seq<string> {
    if tokens == [] then []
    else (if tokens[0].Hole? && tokens[0].key !in table then [tokens[0].key] else []) + Missing(tokens[1..], table)
  }

  // ---------- the two scanners ----------

  class Substitutions {
    var table: Table

    constructor ()
      ensures table == map[]
    {
      table := map[];
    }

    method Set(key: string, value: string)
      modifies this
      ensures table == old(table)[key := value]
    {
      table := table[key := value];
    }

    method Apply(template: string) returns (out: string)
      ensures out == Expand(Tokens(template), table)
    {
      out := [];
      var i := 0;
      while i < |template|
        invariant i <= |template|
        invariant Applied(template, i, out, table)
        decreases |template| - i
      {
        if template[i] == '$' && i + 1 < |template| && template[i + 1] == '{' {
          var end := Find(template[i + 2..], '}');
          if end.None? {
            AppliedTail(template, i, out, table);
            out := out + template[i..];
            return;
          }
          var next := i + 2 + end.value + 1;
          var key := template[i + 2..i + 2 + end.value];
          var piece := template[i..next];
          if key in table {
            piece := table[key];
          }
          AppliedHole(template, i, end.value, next, piece, out, table);
          out := out + piece;
          i := next;
        } else {
          AppliedText(template, i, out, table);
          out := out + [template[i]];
          i := i + 1;
        }
      }
    }

    method Unresolved(s: string) returns (out: seq<string>)
      ensures out == Missing(Tokens(s), table)
    {
      out := [];
      var rest := s;
      while true
        invariant Listed(s, rest, out, table)
        decreases |rest|
      {
        var start := FindOpen(rest);
        if start.None? {
          NoOpenNoMissing(rest, table);
          return;
        }
        var after := rest[start.value + 2..];
        var end := Find(after, '}');
        if end.None? {
          ListedTail(s, rest, start.value, out, table);
          return;
        }
        var key := after[..end.value];
        var found := if key in table then [] else [key];
        ListedHole(s, rest, start.value, end.value, found, out, table);
        out := out + found;
        rest := after[end.value + 1..];
      }
    }
  }

  // ---------- what the scanners have done so far ----------

  ghost predicate Applied(template: string, i: nat, out: string, table: Table) {
    i <= |template| && out + Expand(Tokens(template[i..]), table) == Expand(Tokens(template), table)
  }

  ghost predicate Listed(s: string, rest: string, out: seq<string>, table: Table) {
    out + Missing(Tokens(rest), table) == Missing(Tokens(s), table)
  }

  lemma AppliedTail(template: string, i: nat, out: string, table: Table)
    requires Applied(template, i, out, table) && OpensAt(template, i) && Find(template[i + 2..], '}') == None
    ensures out + template[i..] == Expand(Tokens(template), table)
  {
    assert template[i..][2..] == template[i + 2..];
    TailAt(template[i..], table);
  }

  lemma AppliedText(template: string, i: nat, out: string, table: Table)
    requires Applied(template, i, out, table) && i < |template| && !OpensAt(template, i)
    ensures Applied(template, i + 1, out + [template[i]], table)
  {
    assert template[i..][1..] == template[i + 1..];
    TextAt(template[i..], table);
    Associates(out, [template[i]], Expand(Tokens(template[i + 1..]), table));
  }

  lemma HoleSpelled(template: string, i: nat, end: nat)
    requires OpensAt(template, i) && i + 2 + end < |template| && template[i + 2 + end] == '}'
    ensures template[i..i + 2 + end + 1] == "${" + template[i + 2..i + 2 + end] + "}"
  {
  }

  /** The hole at `i`, by the places of the template. */
  lemma HoleHere(template: string, i: nat, end: nat, next: nat, table: Table)
    requires OpensAt(template, i) && Find(template[i + 2..], '}') == Some(end) && next == i + 2 + end + 1
    ensures Expand(Tokens(template[i..]), table) ==
      ExpandOne(Hole(template[i + 2..i + 2 + end]), table) + Expand(Tokens(template[next..]), table)
  {
    var left := template[i..];
    assert left[2..] == template[i + 2..];
    HoleAt(left, end, table);
    assert left[2..][..end] == template[i + 2..i + 2 + end] && left[2..][end + 1..] == template[next..];
  }

  lemma PieceOfHole(template: string, i: nat, end: nat, next: nat, piece: string, table: Table)
    requires OpensAt(template, i) && Find(template[i + 2..], '}') == Some(end) && next == i + 2 + end + 1
    requires var key := template[i + 2..i + 2 + end]; piece == if key in table then table[key] else template[i..next]
    ensures piece == ExpandOne(Hole(template[i + 2..i + 2 + end]), table)
  {
    HoleSpelled(template, i, end);
  }

  lemma AppliedHole(template: string, i: nat, end: nat, next: nat, piece: string, out: string, table: Table)
    requires Applied(template, i, out, table) && OpensAt(template, i)
    requires Find(template[i + 2..], '}') == Some(end) && next == i + 2 + end + 1
    requires var key := template[i + 2..i + 2 + end]; piece == if key in table then table[key] else template[i..next]
    ensures Applied(template, next, out + piece, table)
  {
    PieceOfHole(template, i, end, next, piece, table);
    HoleHere(template, i, end, next, table);
    Associates(out, piece, Expand(Tokens(template[next..]), table));
  }

  /** What is left from the next opening on. */
  lemma OpenAhead(rest: string, start: nat, table: Table) returns (left: string)
    requires FindOpen(rest) == Some(start)
    ensures OpensAt(left, 0) && left[2..] == rest[start + 2..]
    ensures Missing(Tokens(rest), table) == Missing(Tokens(left), table)
  {
    left := rest[start..];
    SkipToOpen(rest, start, table);
  }

  lemma ListedTail(s: string, rest: string, start: nat, out: seq<string>, table: Table)
    requires Listed(s, rest, out, table) && FindOpen(rest) == Some(start)
    requires Find(rest[start + 2..], '}') == None
    ensures out == Missing(Tokens(s), table)
  {
    var left := OpenAhead(rest, start, table);
    TailAt(left, table);
  }

  lemma ListedHole(s: string, rest: string, start: nat, end: nat, found: seq<string>, out: seq<string>, table: Table)
    requires Listed(s, rest, out, table) && FindOpen(rest) == Some(start)
    requires Find(rest[start + 2..], '}') == Some(end)
    requires var key := rest[start + 2..][..end]; found == if key in table then [] else [key]
    ensures Listed(s, rest[start + 2..][end + 1..], out + found, table)
  {
    var left := OpenAhead(rest, start, table);
    HoleAt(left, end, table);
    Associates(out, found, Missing(Tokens(left[2..][end + 1..]), table));
  }

  lemma HoleAt(s: string, end: nat, table: Table)
    requires OpensAt(s, 0) && Find(s[2..], '}') == Some(end)
    ensures Expand(Tokens(s), table) ==
      ExpandOne(Hole(s[2..][..end]), table) + Expand(Tokens(s[2..][end + 1..]), table)
    ensures Missing(Tokens(s), table) ==
      (if s[2..][..end] in table then [] else [s[2..][..end]]) + Missing(Tokens(s[2..][end + 1..]), table)
  {
    assert Tokens(s)[1..] == Tokens(s[2..][end + 1..]);
  }

  lemma TailAt(s: string, table: Table)
    requires OpensAt(s, 0) && Find(s[2..], '}') == None
    ensures Expand(Tokens(s), table) == s
    ensures Missing(Tokens(s), table) == []
  {
    assert Tokens(s) == [Tail(s)];
  }

  lemma TextAt(s: string, table: Table)
    requires s != [] && !OpensAt(s, 0)
    ensures Expand(Tokens(s), table) == [s[0]] + Expand(Tokens(s[1..]), table)
    ensures Missing(Tokens(s), table) == Missing(Tokens(s[1..]), table)
  {
    assert Tokens(s)[1..] == Tokens(s[1..]);
  }

  lemma {:induction false} NoOpenNoMissing(s: string, table: Table)
    requires FindOpen(s) == None
    ensures Missing(Tokens(s), table) == []
  {
    if s != [] {
      TextAt(s, table);
      NoOpenNoMissing(s[1..], table);
    }
  }

  lemma {:induction false} SkipToOpen(s: string, start: nat, table: Table)
    requires FindOpen(s) == Some(start)
    ensures Missing(Tokens(s), table) == Missing(Tokens(s[start..]), table)
  {
    if start > 0 {
      assert s[1..][start - 1..] == s[start..];
      SkipToOpen(s[1..], start - 1, table);
      TextAt(s, table);
    } else {
      assert s[0..] == s;
    }
  }

  // ---------- expanding twice ----------

  /** A key some template can name. */
  predicate Reachable(key: string) {
    '}' !in key
  }

  ghost predicate NoOpening(v: string) {
    forall j: nat :: !OpensAt(v, j)
  }

  /** No neighbour can turn this text into part of a placeholder. */
  ghost predicate Inert(v: string) {
    v != [] && v[0] != '{' && v[|v| - 1] != '$' && NoOpening(v)
  }

  ghost predicate AllInert(table: Table) {
    forall key | key in table && Reachable(key) :: Inert(table[key])
  }

  function Texts(v: string): seq<Token> {
    seq(|v|, k requires 0 <= k < |v| => Text(v[k]))
  }

  /** The token stream of the expanded text: values dissolve into characters. */
  function Dissolve(tokens: seq<Token>, table: Table): seq<Token> {
    if tokens == [] then []
    else
      (if tokens[0].Hole? && tokens[0].key in table then Texts(table[tokens[0].key]) else [tokens[0]])
      + Dissolve(tokens[1..], table)
  }

  lemma NoOpeningTail(v: string)
    requires v != [] && NoOpening(v)
    ensures NoOpening(v[1..])
  {
    forall j: nat ensures !OpensAt(v[1..], j) { assert !OpensAt(v, j + 1); }
  }

  /** The text does not end in a dollar that `s` would turn into an opening. */
  predicate Keeps(v: string, s: string) {
    v != [] && v[|v| - 1] == '$' && s != [] ==> s[0] != '{'
  }

  lemma KeepsTail(v: string, s: string)
    requires v != [] && NoOpening(v) && Keeps(v, s)
    ensures NoOpening(v[1..]) && Keeps(v[1..], s)
  {
    NoOpeningTail(v);
  }

  lemma NotOpenAtFirst(v: string, s: string, t: string)
    requires v != [] && NoOpening(v) && Keeps(v, s) && t == v + s
    ensures !OpensAt(t, 0)
  {
    assert !OpensAt(v, 0);
  }

  lemma FirstInFront(v: string, s: string)
    requires v != []
    ensures v + s == [v[0]] + (v[1..] + s)
  {
  }

  lemma CharInFront(c: char, s: string)
    requires !OpensAt([c] + s, 0)
    ensures Tokens([c] + s) == [Text(c)] + Tokens(s)
  {
    assert ([c] + s)[1..] == s;
  }

  lemma TextsInFront(v: string, tokens: seq<Token>)
    requires v != []
    ensures [Text(v[0])] + (Texts(v[1..]) + tokens) == Texts(v) + tokens
  {
  }

  /** Text without an opening, put before text that cannot complete one, scans character by character. */
  lemma {:induction false} TextInFront(v: string, s: string)
    requires NoOpening(v) && Keeps(v, s)
    ensures Tokens(v + s) == Texts(v) + Tokens(s)
  {
    if v == [] {
      assert v + s == s;
    } else {
      FirstInFront(v, s);
      NotOpenAtFirst(v, s, v + s);
      CharInFront(v[0], v[1..] + s);
      KeepsTail(v, s);
      TextInFront(v[1..], s);
      TextsInFront(v, Tokens(s));
    }
  }

  lemma HoleInFront(key: string, s: string)
    requires Reachable(key)
    ensures Tokens("${" + key + "}" + s) == [Hole(key)] + Tokens(s)
  {
    var t := "${" + key + "}" + s;
    var after := key + "}" + s;
    assert t[2..] == after;
    assert after[..|key|] == key && after[|key|] == '}';
    FindIs(after, '}', |key|);
    assert after[|key| + 1..] == s;
  }

  /** The first character after expansion is an opening brace only if it was one before. */
  lemma BraceStays(s: string, table: Table)
    requires AllInert(table)
    ensures var out := Expand(Tokens(s), table); out != [] && out[0] == '{' ==> s != [] && s[0] == '{'
  {
    if s != [] && OpensAt(s, 0) {
      var end := Find(s[2..], '}');
      if end.Some? {
        HoleAt(s, end.value, table);
        var key := s[2..][..end.value];
        if key in table { assert Inert(table[key]); }
      } else {
        TailAt(s, table);
      }
    } else if s != [] {
      TextAt(s, table);
    }
  }

  lemma {:induction false} ExpandedTokens(s: string, table: Table)
    requires AllInert(table)
    ensures Tokens(Expand(Tokens(s), table)) == Dissolve(Tokens(s), table)
    decreases |s|
  {
    if s == [] {
    } else if OpensAt(s, 0) {
      var end := Find(s[2..], '}');
      match end {
        case Some(end) =>
          var key, rest := s[2..][..end], s[2..][end + 1..];
          HoleAt(s, end, table);
          ExpandedTokens(rest, table);
          assert Tokens(s)[1..] == Tokens(rest);
          if key in table {
            assert Inert(table[key]);
            TextInFront(table[key], Expand(Tokens(rest), table));
          } else {
            HoleInFront(key, Expand(Tokens(rest), table));
          }
        case None =>
          TailAt(s, table);
          assert Dissolve([Tail(s)], table) == [Tail(s)];
      }
    } else {
      var rest := s[1..];
      var out := Expand(Tokens(rest), table);
      TextAt(s, table);
      ExpandedTokens(rest, table);
      BraceStays(rest, table);
      assert ([s[0]] + out)[1..] == out;
      assert !OpensAt([s[0]] + out, 0);
      assert Tokens(s)[1..] == Tokens(rest);
    }
  }

  lemma {:induction false} ExpandConcat(a: seq<Token>, b: seq<Token>, table: Table)
    ensures Expand(a + b, table) == Expand(a, table) + Expand(b, table)
  {
    if a == [] {
      assert a + b == b;
    } else {
      assert (a + b)[1..] == a[1..] + b && (a + b)[0] == a[0];
      ExpandConcat(a[1..], b, table);
      Associates(ExpandOne(a[0], table), Expand(a[1..], table), Expand(b, table));
    }
  }

  lemma {:induction false} MissingConcat(a: seq<Token>, b: seq<Token>, table: Table)
    ensures Missing(a + b, table) == Missing(a, table) + Missing(b, table)
  {
    if a == [] {
      assert a + b == b;
    } else {
      assert (a + b)[1..] == a[1..] + b && (a + b)[0] == a[0];
      MissingConcat(a[1..], b, table);
      var head := if a[0].Hole? && a[0].key !in table then [a[0].key] else [];
      Associates(head, Missing(a[1..], table), Missing(b, table));
    }
  }

  lemma {:induction false} TextsExpand(v: string, table: Table)
    ensures Expand(Texts(v), table) == v && Missing(Texts(v), table) == []
  {
    if v != [] {
      assert Texts(v)[1..] == Texts(v[1..]);
      TextsExpand(v[1..], table);
    }
  }

  lemma {:induction false} DissolvedExpand(tokens: seq<Token>, table: Table)
    ensures Expand(Dissolve(tokens, table), table) == Expand(tokens, table)
    ensures Missing(Dissolve(tokens, table), table) == Missing(tokens, table)
    ensures forall k | 0 <= k < |Dissolve(tokens, table)| && Dissolve(tokens, table)[k].Hole? ::
      Dissolve(tokens, table)[k].key !in table
  {
    if tokens != [] {
      var head := if tokens[0].Hole? && tokens[0].key in table then Texts(table[tokens[0].key]) else [tokens[0]];
      DissolvedExpand(tokens[1..], table);
      ExpandConcat(head, Dissolve(tokens[1..], table), table);
      MissingConcat(head, Dissolve(tokens[1..], table), table);
      if tokens[0].Hole? && tokens[0].key in table {
        TextsExpand(table[tokens[0].key], table);
      } else {
        assert head[1..] == [];
        assert Expand(head, table) == ExpandOne(tokens[0], table) + Expand([], table);
      }
    }
  }

  /** Expanding again changes nothing, and what is unresolved afterwards is what was unknown before. */
  ghost predicate Settles(s: string, table: Table) {
    var once := Expand(Tokens(s), table);
    Expand(Tokens(once), table) == once && Missing(Tokens(once), table) == Missing(Tokens(s), table)
  }

  lemma InertSettles(s: string, table: Table)
    requires AllInert(table)
    ensures Settles(s, table)
  {
    ExpandedTokens(s, table);
    DissolvedExpand(Tokens(s), table);
  }

  // ---------- templates that do not settle ----------

  /** The placeholder of `key` and then plain text. */
  lemma HoleThenText(key: string, text: string, table: Table)
    requires key in table && Reachable(key) && NoOpening(text)
    ensures Expand(Tokens("${" + key + "}" + text), table) == table[key] + text
    ensures Missing(Tokens("${" + key + "}" + text), table) == []
  {
    HoleInFront(key, text);
    TextInFront(text, []);
    assert text + [] == text && Texts(text) + [] == Texts(text);
    TextsExpand(text, table);
    assert ([Hole(key)] + Texts(text))[1..] == Texts(text);
  }

  lemma NoOpeningDiffers(front: string, v: string, key: string, text: string)
    requires NoOpening(v)
    ensures front + (v + text) != front + ("${" + key + "}" + text)
  {
    var a, b := front + (v + text), front + ("${" + key + "}" + text);
    assert !OpensAt(v, 0);
    assert |v| != |key| + 3 ==> |a| != |b|;
    assert b[|front|] == '$' && b[|front| + 1] == '{';
    assert |v| >= 2 ==> a[|front|] == v[0] && a[|front| + 1] == v[1];
  }

  /** A text with one placeholder and nothing else to expand never expands to itself unresolved-free. */
  lemma LeftoverHole(front: string, key: string, text: string, table: Table)
    requires NoOpening(front) && Reachable(key) && NoOpening(text)
    requires key in table ==> NoOpening(table[key])
    ensures var out := front + ("${" + key + "}" + text);
      Expand(Tokens(out), table) != out || Missing(Tokens(out), table) != []
  {
    var hole := "${" + key + "}" + text;
    TextInFront(front, hole);
    TextsExpand(front, table);
    ExpandConcat(Texts(front), Tokens(hole), table);
    MissingConcat(Texts(front), Tokens(hole), table);
    if key in table {
      HoleThenText(key, text, table);
      NoOpeningDiffers(front, table[key], key, text);
    } else {
      HoleInFront(key, text);
      assert ([Hole(key)] + Tokens(text))[0] == Hole(key);
    }
  }

  lemma EmptyValueUnsettled(key: string, table: Table)
    requires key in table && Reachable(key) && table[key] == [] && NoOpenings(table)
    ensures var s := "$" + ("${" + key + "}" + "{}");
      Missing(Tokens(s), table) == [] && Expand(Tokens(s), table) == "${}" && !Settles(s, table)
  {
    HoleThenText(key, "{}", table);
    var s := "${" + key + "}" + "{}";
    assert ("$" + s)[1..] == s;
    TextAt("$" + s, table);
    assert Expand(Tokens("$" + s), table) == [] + ("${" + "" + "}" + "");
    LeftoverHole([], "", "", table);
  }

  lemma TrailingDollarUnsettled(key: string, table: Table)
    requires key in table && Reachable(key) && NoOpenings(table)
    requires table[key] != [] && table[key][|table[key]| - 1] == '$'
    ensures !Settles("${" + key + "}" + "{}", table)
  {
    HoleThenText(key, "{}", table);
    var v := table[key];
    var front := v[..|v| - 1];
    forall j: nat ensures !OpensAt(front, j) { assert !OpensAt(v, j); }
    assert v + "{}" == front + ("${" + "" + "}" + "");
    LeftoverHole(front, "", "", table);
  }

  lemma LeadingBraceUnsettled(key: string, table: Table)
    requires key in table && Reachable(key) && NoOpenings(table)
    requires table[key] != [] && table[key][0] == '{'
    ensures !Settles("$" + ("${" + key + "}" + "}"), table)
  {
    HoleThenText(key, "}", table);
    var v := table[key];
    var s := "${" + key + "}" + "}";
    assert ("$" + s)[1..] == s;
    TextAt("$" + s, table);
    var inner, text := BraceCloses(v);
    assert Expand(Tokens("$" + s), table) == "$" + (v + "}");
    assert "$" + (v + "}") == [] + ("${" + inner + "}" + text);
    LeftoverHole([], inner, text, table);
  }

  /** A value that starts with a brace becomes a placeholder between a dollar and a closing brace. */
  lemma BraceCloses(v: string) returns (inner: string, text: string)
    requires v != [] && v[0] == '{' && NoOpening(v)
    ensures Reachable(inner) && NoOpening(text) && "$" + (v + "}") == "${" + inner + "}" + text
  {
    var after := v[1..] + "}";
    assert after[|after| - 1] == '}';
    var end := Find(after, '}').value;
    inner, text := after[..end], after[end + 1..];
    NoOpeningSuffix(v, end + 2, text);
    assert "$" + (v + "}") == "${" + after && after == inner + "}" + text;
  }

  lemma NoOpeningSuffix(v: string, k: nat, text: string)
    requires NoOpening(v) && k <= |v| + 1 && text == (v + "}")[k..]
    ensures NoOpening(text)
  {
    forall j: nat ensures !OpensAt(text, j) { assert !OpensAt(v, j + k); }
  }

  /** No value a template can reach holds an opening of its own. */
  ghost predicate NoOpenings(table: Table) {
    forall key | key in table && Reachable(key) :: NoOpening(table[key])
  }

  lemma UnsettledTemplate(table: Table) returns (s: string)
    requires NoOpenings(table) && !AllInert(table)
    ensures !Settles(s, table)
  {
    var key :| key in table && Reachable(key) && !Inert(table[key]);
    if table[key] == [] {
      s := "$" + ("${" + key + "}" + "{}");
      EmptyValueUnsettled(key, table);
    } else if table[key][0] == '{' {
      s := "$" + ("${" + key + "}" + "}");
      LeadingBraceUnsettled(key, table);
    } else {
      s := "${" + key + "}" + "{}";
      TrailingDollarUnsettled(key, table);
    }
  }

  /**
    For tables whose values open no placeholder themselves: every template settles after one
    expansion exactly when every reachable value is non-empty, does not start with a brace and does
    not end with a dollar.
    */
  lemma EveryTemplateSettlesExactly(table: Table)
    requires NoOpenings(table)
    ensures (forall s :: Settles(s, table)) <==> AllInert(table)
  {
    if AllInert(table) {
      forall s ensures Settles(s, table) { InertSettles(s, table); }
    } else {
      var s := UnsettledTemplate(table);
    }
  }
}
