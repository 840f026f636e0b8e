/**
  The anchored pattern engine for OS-version rules (`game/platform.rs`): a parser of patterns, a
  backtracking matcher, and the declarative language both are measured against.
  */
module PatternMatcher {
  import opened Wrappers

  datatype Tok = Lit(c: char) | Any | Digit

  datatype Quant = Star | Plus

  datatype Node = Node(tok: Tok, quant: Option<Quant>)

  predicate MatchOne(tok: Tok, ch: char) {
    match tok
    case Lit(c) => c == ch
    case Any => true
    case Digit => '0' <= ch <= '9'
  }

  // ---------- the language of a node list ----------

  predicate AllMatch(tok: Tok, s: string) {
    forall k | 0 <= k < |s| :: MatchOne(tok, s[k])
  }

  /** `s` is a piece of text one node stands for. */
  predicate Piece(node: Node, s: string) {
    AllMatch(node.tok, s) &&
    match node.quant
    case None => |s| == 1
    case Some(Star) => true
    case Some(Plus) => |s| >= 1
  }

  function Join(pieces: seq<string>): string {
    if pieces == [] then [] else pieces[0] + Join(pieces[1..])
  }

  ghost predicate Splits(nodes: seq<Node>, t: string, pieces: seq<string>) {
    && |pieces| == |nodes|
    && Join(pieces) == t
    && forall i | 0 <= i < |nodes| :: Piece(nodes[i], pieces[i])
  }

  /** `t` is a concatenation of pieces, one for each node in order. */
  ghost predicate InLanguage(nodes: seq<Node>, t: string) {
    exists pieces :: Splits(nodes, t, pieces)
  }

  lemma EmptyLanguage(t: string)
    ensures InLanguage([], t) <==> t == []
  {
    if t == [] { assert Splits([], t, []); }
  }

  /** One piece is cut off at `k`, the rest belongs to the remaining nodes. */
  ghost predicate CutAt(nodes: seq<Node>, t: string, k: nat)
    requires nodes != [] && k <= |t|
  {
    Piece(nodes[0], t[..k]) && InLanguage(nodes[1..], t[k..])
  }

  lemma LanguageOfCut(nodes: seq<Node>, t: string, k: nat)
    requires nodes != [] && k <= |t| && CutAt(nodes, t, k)
    ensures InLanguage(nodes, t)
  {
    var rest :| Splits(nodes[1..], t[k..], rest);
    var pieces := [t[..k]] + rest;
    assert pieces[1..] == rest && t == t[..k] + t[k..];
    forall i | 0 <= i < |nodes| ensures Piece(nodes[i], pieces[i]) {
      if i > 0 { assert nodes[1..][i - 1] == nodes[i] && pieces[i] == rest[i - 1]; }
    }
    assert Splits(nodes, t, pieces);
  }

  lemma CutOfLanguage(nodes: seq<Node>, t: string) returns (k: nat)
    requires nodes != [] && InLanguage(nodes, t)
    ensures k <= |t| && CutAt(nodes, t, k)
  {
    var pieces :| Splits(nodes, t, pieces);
    k := |pieces[0]|;
    assert t == pieces[0] + Join(pieces[1..]);
    assert t[..k] == pieces[0] && t[k..] == Join(pieces[1..]);
    assert Splits(nodes[1..], t[k..], pieces[1..]);
  }

  /** A node without quantifier takes exactly one character. */
  lemma PlainNode(nodes: seq<Node>, t: string)
    requires nodes != [] && nodes[0].quant == None
    ensures InLanguage(nodes, t) <==> t != [] && MatchOne(nodes[0].tok, t[0]) && InLanguage(nodes[1..], t[1..])
  {
    if InLanguage(nodes, t) {
      var k := CutOfLanguage(nodes, t);
      assert t[..k][0] == t[0];
    }
    if t != [] && MatchOne(nodes[0].tok, t[0]) && InLanguage(nodes[1..], t[1..]) {
      LanguageOfCut(nodes, t, 1);
    }
  }

  lemma PlainNodeAt(nodes: seq<Node>, t: string, ni: nat, ti: nat)
    requires ni < |nodes| && ti <= |t| && nodes[ni].quant == None
    ensures InLanguage(nodes[ni..], t[ti..]) <==>
      ti < |t| && MatchOne(nodes[ni].tok, t[ti]) && InLanguage(nodes[ni + 1..], t[ti + 1..])
  {
    PlainNode(nodes[ni..], t[ti..]);
    assert nodes[ni..][1..] == nodes[ni + 1..];
    if ti < |t| { assert t[ti..][1..] == t[ti + 1..]; }
  }

  lemma NoFirst(nodes: seq<Node>, t: string)
    requires nodes != [] && nodes[0].quant == Some(Plus)
    requires t == [] || !MatchOne(nodes[0].tok, t[0])
    ensures !InLanguage(nodes, t)
  {
    if InLanguage(nodes, t) {
      var j := CutOfLanguage(nodes, t);
    }
  }

  // ---------- the matcher ----------

  /** The first `k` characters are of the class, and no first piece of `least` to `k` leaves a match. */
  ghost predicate NoCutBelow(nodes: seq<Node>, t: string, least: nat, k: nat)
    requires nodes != []
  {
    && k <= |t|
    && AllMatch(nodes[0].tok, t[..k])
    && forall j | least <= j < k :: !InLanguage(nodes[1..], t[j..])
  }

  lemma NoCutStep(nodes: seq<Node>, t: string, least: nat, k: nat)
    requires nodes != [] && k < |t| && MatchOne(nodes[0].tok, t[k])
    requires NoCutBelow(nodes, t, least, k) && !InLanguage(nodes[1..], t[k..])
    ensures NoCutBelow(nodes, t, least, k + 1)
  {
    assert t[..k + 1] == t[..k] + [t[k]];
  }

  lemma CutFound(nodes: seq<Node>, t: string, least: nat, k: nat)
    requires nodes != [] && least <= k && NoCutBelow(nodes, t, least, k) && InLanguage(nodes[1..], t[k..])
    requires least <= 1 && nodes[0].quant == if least == 0 then Some(Star) else Some(Plus)
    ensures InLanguage(nodes, t)
  {
    LanguageOfCut(nodes, t, k);
  }

  /** Once a character fails the class, no longer first piece exists. */
  lemma NoCutAtAll(nodes: seq<Node>, t: string, least: nat, k: nat)
    requires nodes != [] && least <= k && NoCutBelow(nodes, t, least, k) && !InLanguage(nodes[1..], t[k..])
    requires least <= 1 && nodes[0].quant == if least == 0 then Some(Star) else Some(Plus)
    requires k == |t| || !MatchOne(nodes[0].tok, t[k])
    ensures !InLanguage(nodes, t)
  {
    if InLanguage(nodes, t) {
      var j := CutOfLanguage(nodes, t);
    }
  }

  /** Does `t[ti0..]` match `nodes[ni0..]` in full? */
  method MatchesAt(nodes: seq<Node>, t: string, ni0: nat, ti0: nat) returns (matched: bool)
    requires ni0 <= |nodes| && ti0 <= |t|
    ensures matched <==> InLanguage(nodes[ni0..], t[ti0..])
    decreases |nodes| - ni0, 1
  {
    var ni: nat, ti: nat := ni0, ti0;
    while ni < |nodes|
      invariant ni0 <= ni <= |nodes| && ti <= |t|
      invariant InLanguage(nodes[ni..], t[ti..]) <==> InLanguage(nodes[ni0..], t[ti0..])
    {
      match nodes[ni].quant
      case None =>
        PlainNodeAt(nodes, t, ni, ti);
        if ti >= |t| || !MatchOne(nodes[ni].tok, t[ti]) {
          return false;
        }
        ti := ti + 1;
        ni := ni + 1;
      case Some(Star) =>
        matched := MatchesStar(nodes, t, ni, ti);
        return;
      case Some(Plus) =>
        matched := MatchesPlus(nodes, t, ni, ti);
        return;
    }
    EmptyLanguage(t[ti..]);
    return ti == |t|;
  }

  /** The zero-or-more branch: try the rest after every length the class allows, shortest first. */
  method MatchesStar(nodes: seq<Node>, t: string, ni: nat, ti: nat) returns (matched: bool)
    requires ni < |nodes| && ti <= |t| && nodes[ni].quant == Some(Star)
    ensures matched <==> InLanguage(nodes[ni..], t[ti..])
    decreases |nodes| - ni, 0
  {
    var tok := nodes[ni].tok;
    ghost var left, text := nodes[ni..], t[ti..];
    assert left[1..] == nodes[ni + 1..];
    var k: nat := ti;
    while true
      invariant ti <= k <= |t|
      invariant NoCutBelow(left, text, 0, k - ti)
      decreases |t| - k
    {
      assert text[k - ti..] == t[k..];
      var rest := MatchesAt(nodes, t, ni + 1, k);
      if rest {
        CutFound(left, text, 0, k - ti);
        return true;
      }
      if k >= |t| || !MatchOne(tok, t[k]) {
        NoCutAtAll(left, text, 0, k - ti);
        return false;
      }
      NoCutStep(left, text, 0, k - ti);
      k := k + 1;
    }
  }

  /** The one-or-more branch: the first character must match before the rest is tried at all. */
  method MatchesPlus(nodes: seq<Node>, t: string, ni: nat, ti: nat) returns (matched: bool)
    requires ni < |nodes| && ti <= |t| && nodes[ni].quant == Some(Plus)
    ensures matched <==> InLanguage(nodes[ni..], t[ti..])
    decreases |nodes| - ni, 0
  {
    var tok := nodes[ni].tok;
    ghost var left, text := nodes[ni..], t[ti..];
    assert left[1..] == nodes[ni + 1..];
    if ti >= |t| || !MatchOne(tok, t[ti]) {
      NoFirst(left, text);
      return false;
    }
    var k: nat := ti + 1;
    while true
      invariant ti + 1 <= k <= |t|
      invariant NoCutBelow(left, text, 1, k - ti)
      decreases |t| - k
    {
      assert text[k - ti..] == t[k..];
      var rest := MatchesAt(nodes, t, ni + 1, k);
      if rest {
        CutFound(left, text, 1, k - ti);
        return true;
      }
      if k < |t| && MatchOne(tok, t[k]) {
        NoCutStep(left, text, 1, k - ti);
        k := k + 1;
      } else {
        NoCutAtAll(left, text, 1, k - ti);
        return false;
      }
    }
  }

  // ---------- the parser ----------

  function TokenLength(p: string): (n: nat)
    requires p != []
    ensures 1 <= n <= |p|
  {
    if p[0] == '\\' && |p| > 1 then 2 else 1
  }

  function TokenOf(p: string): Tok
    requires p != []
  {
    if p[0] == '\\' && |p| > 1 then (if p[1] == 'd' then Digit else Lit(p[1]))
    else if p[0] == '.' then Any
    else Lit(p[0])
  }

  predicate StartsQuantified(p: string) {
    p != [] && (p[0] == '*' || p[0] == '+')
  }

  function QuantOf(p: string): Option<Quant> {
    if !StartsQuantified(p) then None else Some(if p[0] == '*' then Star else Plus)
  }

  function NodeLength(p: string): (n: nat)
    requires p != []
    ensures 1 <= n <= |p|
  {
    TokenLength(p) + if StartsQuantified(p[TokenLength(p)..]) then 1 else 0
  }

  function NodeOf(p: string): Node
    requires p != []
  {
    Node(TokenOf(p), QuantOf(p[TokenLength(p)..]))
  }

  /** The grammar: nodes one after the other. */
  function Nodes(p: string): seq<Node> {
    if p == [] then [] else [NodeOf(p)] + Nodes(p[NodeLength(p)..])
  }

  lemma TokenAt(p: string, i: nat)
    requires i < |p|
    ensures TokenLength(p[i..]) == if p[i] == '\\' && i + 1 < |p| then 2 else 1
    ensures TokenOf(p[i..]) ==
      if p[i] == '\\' && i + 1 < |p| then (if p[i + 1] == 'd' then Digit else Lit(p[i + 1]))
      else if p[i] == '.' then Any else Lit(p[i])
  {
  }

  /** One node read at `i`: its token ends at `j` and its quantifier, if any, before `next`. */
  lemma NodeAt(p: string, i: nat, j: nat, next: nat)
    requires i < |p| && j == i + TokenLength(p[i..])
    requires next == j + if StartsQuantified(p[j..]) then 1 else 0
    ensures Nodes(p[i..]) == [Node(TokenOf(p[i..]), QuantOf(p[j..]))] + Nodes(p[next..])
  {
    assert p[i..][TokenLength(p[i..])..] == p[j..];
    assert p[i..][NodeLength(p[i..])..] == p[next..];
  }

  lemma Associates(a: seq<Node>, n: Node, b: seq<Node>)
    ensures a + ([n] + b) == (a + [n]) + b
  {
  }

  method ParsePattern(p: string) returns (nodes: seq<Node>)
    ensures nodes == Nodes(p)
  {
    nodes := [];
    var i := 0;
    while i < |p|
      invariant i <= |p|
      invariant nodes + Nodes(p[i..]) == Nodes(p)
      decreases |p| - i
    {
      ghost var start, before := i, nodes;
      TokenAt(p, i);
      var c := p[i];
      var tok;
      if c == '\\' && i + 1 < |p| {
        i := i + 1;
        tok := if p[i] == 'd' then Digit else Lit(p[i]);
      } else if c == '.' {
        tok := Any;
      } else {
        tok := Lit(c);
      }
      i := i + 1;
      ghost var end := i;
      var quant := None;
      if i < |p| && (p[i] == '*' || p[i] == '+') {
        quant := Some(if p[i] == '*' then Star else Plus);
        i := i + 1;
      }
      assert quant == QuantOf(p[end..]);
      nodes := nodes + [Node(tok, quant)];
      NodeAt(p, start, end, i);
      Associates(before, Node(tok, quant), Nodes(p[i..]));
    }
  }

  // ---------- every node list has a spelling ----------

  function SpellTok(tok: Tok): string {
    match tok
    case Lit(c) => if c == 'd' then "d" else ['\\', c]
    case Any => "."
    case Digit => "\\d"
  }

  function SpellNode(node: Node): string {
    SpellTok(node.tok) + (match node.quant case None => "" case Some(Star) => "*" case Some(Plus) => "+")
  }

  function Spell(nodes: seq<Node>): string {
    if nodes == [] then "" else SpellNode(nodes[0]) + Spell(nodes[1..])
  }

  lemma SpellTokHead(tok: Tok, rest: string)
    ensures var p := SpellTok(tok) + rest;
      p != [] && TokenLength(p) == |SpellTok(tok)| && TokenOf(p) == tok && p[TokenLength(p)..] == rest
      && !StartsQuantified(p)
  {
    assert (SpellTok(tok) + rest)[|SpellTok(tok)|..] == rest;
  }

  lemma SpellHead(node: Node, rest: string)
    requires !StartsQuantified(rest)
    ensures var p := SpellNode(node) + rest;
      p != [] && Nodes(p) == [node] + Nodes(rest) && !StartsQuantified(p)
  {
    var mark := match node.quant case None => "" case Some(Star) => "*" case Some(Plus) => "+";
    var p := SpellNode(node) + rest;
    assert p == SpellTok(node.tok) + (mark + rest);
    SpellTokHead(node.tok, mark + rest);
    var j := TokenLength(p);
    assert p[0..] == p && p[j..] == mark + rest;
    assert (mark + rest)[|mark|..] == rest;
    assert p[j + |mark|..] == rest;
    assert QuantOf(mark + rest) == node.quant;
    NodeAt(p, 0, j, j + |mark|);
  }

  lemma {:induction false} SpellRoundTrip(nodes: seq<Node>)
    ensures Nodes(Spell(nodes)) == nodes
    ensures !StartsQuantified(Spell(nodes))
  {
    if nodes != [] {
      SpellRoundTrip(nodes[1..]);
      SpellHead(nodes[0], Spell(nodes[1..]));
    }
  }

  // ---------- `version_matches` ----------

  predicate OpensOnly(pattern: string) {
    |pattern| > 0 && pattern[0] == '^' && (|pattern| == 1 || pattern[|pattern| - 1] != '$')
  }

  function WithoutCaret(pattern: string): string {
    if |pattern| > 0 && pattern[0] == '^' then pattern[1..] else pattern
  }

  predicate EndsInDollar(p: string) { |p| > 0 && p[|p| - 1] == '$' }

  /** Read from the left, the text ends in a backslash that is still to escape something. */
  predicate EndsInEscape(p: string) {
    if p == "" then false
    else if p[0] == '\\' then |p| == 1 || EndsInEscape(p[2..])
    else EndsInEscape(p[1..])
  }

  predicate EndsInEscapedDollar(p: string) { EndsInDollar(p) && EndsInEscape(p[..|p| - 1]) }

  /** The documented reading: both anchors are implicit and may be written or not. */
  function Body(pattern: string): string {
    var p := WithoutCaret(pattern);
    if EndsInDollar(p) && !EndsInEscapedDollar(p) then p[..|p| - 1] else p
  }

  /** What is handed to the parser. */
  function Stripped(pattern: string): string {
    var p := WithoutCaret(pattern);
    if EndsInDollar(p) then p[..|p| - 1] else pattern
  }

  /** The verdict on a whole version. */
  ghost predicate Accepts(pattern: string, version: string) {
    InLanguage(Nodes(Stripped(pattern)), version)
  }

  method VersionMatches(pattern: string, version: string) returns (matched: bool)
    ensures matched <==> Accepts(pattern, version)
  {
    var stripped := pattern;
    if |pattern| > 0 && pattern[0] == '^' { stripped := pattern[1..]; }
    if |stripped| > 0 && stripped[|stripped| - 1] == '$' {
      stripped := stripped[..|stripped| - 1];
    } else {
      stripped := pattern;
    }
    var nodes := ParsePattern(stripped);
    assert nodes[0..] == nodes && version[0..] == version;
    matched := MatchesAt(nodes, version, 0, 0);
  }

  lemma NodesOfLiteral(c: char, rest: string)
    requires c != '\\' && c != '.'
    ensures !StartsQuantified(rest) ==> Nodes([c] + rest) == [Node(Lit(c), None)] + Nodes(rest)
    ensures StartsQuantified(rest) ==> Nodes([c] + rest) == [Node(Lit(c), QuantOf(rest))] + Nodes(rest[1..])
  {
    var p := [c] + rest;
    assert p[0..] == p && p[1..] == rest;
    NodeAt(p, 0, 1, if StartsQuantified(rest) then 2 else 1);
    if StartsQuantified(rest) { assert p[2..] == rest[1..]; }
  }

  /**
    A pattern that opens with a caret and does not close with a dollar asks for a literal caret, or for
    as many as the quantifier behind it allows.
    */
  lemma LoneCaretIsLiteral(pattern: string, version: string)
    requires OpensOnly(pattern)
    ensures var rest := Body(pattern);
      Accepts(pattern, version) <==>
        if StartsQuantified(rest) then InLanguage([Node(Lit('^'), QuantOf(rest))] + Nodes(rest[1..]), version)
        else version != [] && version[0] == '^' && InLanguage(Nodes(rest), version[1..])
  {
    var rest := Body(pattern);
    assert pattern == ['^'] + rest && Stripped(pattern) == pattern;
    NodesOfLiteral('^', rest);
    if !StartsQuantified(rest) {
      PlainNode(Nodes(pattern), version);
      assert Nodes(pattern)[1..] == Nodes(rest);
    }
  }

  function MinLength(nodes: seq<Node>): nat {
    if nodes == [] then 0 else (if nodes[0].quant == Some(Star) then 0 else 1) + MinLength(nodes[1..])
  }

  lemma {:induction false} NoShorterWord(nodes: seq<Node>, t: string)
    requires InLanguage(nodes, t)
    ensures |t| >= MinLength(nodes)
  {
    if nodes != [] {
      var k := CutOfLanguage(nodes, t);
      NoShorterWord(nodes[1..], t[k..]);
    }
  }

  lemma {:induction false} ShortestWord(nodes: seq<Node>) returns (t: string)
    ensures InLanguage(nodes, t) && |t| == MinLength(nodes)
  {
    if nodes == [] {
      t := [];
      EmptyLanguage(t);
    } else {
      var c := match nodes[0].tok case Lit(c) => c case Any => '0' case Digit => '0';
      var rest := ShortestWord(nodes[1..]);
      var k := if nodes[0].quant == Some(Star) then 0 else 1;
      t := (if k == 0 then [] else [c]) + rest;
      assert t[k..] == rest;
      LanguageOfCut(nodes, t, k);
    }
  }

  /** Every word starts with a star or a plus. */
  ghost predicate MarkFirst(nodes: seq<Node>) {
    forall t | InLanguage(nodes, t) :: StartsQuantified(t)
  }

  lemma MarkFirstOf(c: char, quant: Option<Quant>, rest: seq<Node>)
    requires StartsQuantified([c]) && (quant == Some(Star) ==> MarkFirst(rest))
    ensures MarkFirst([Node(Lit(c), quant)] + rest)
  {
    var nodes := [Node(Lit(c), quant)] + rest;
    forall t | InLanguage(nodes, t) ensures StartsQuantified(t) {
      var k := CutOfLanguage(nodes, t);
      assert nodes[1..] == rest;
      if k > 0 { assert t[0] == t[..k][0]; } else { assert t[0..] == t; }
    }
  }

  /** A mark in front of the rest: taken as a literal, so every word starts with a mark, or starred. */
  lemma MarkInFront(q: char, after: string)
    requires StartsQuantified([q])
    requires QuantOf(after) == Some(Star) ==> MarkFirst(Nodes(after[1..]))
    ensures MarkFirst(Nodes([q] + after))
  {
    NodesOfLiteral(q, after);
    MarkFirstOf(q, QuantOf(after), if StartsQuantified(after) then Nodes(after[1..]) else Nodes(after));
  }

  /** The shortest words around a mark that is itself starred. */
  lemma StarredMark(c: char, q: char, after: string)
    requires c != '\\' && c != '.' && StartsQuantified([q]) && QuantOf(after) == Some(Star)
    ensures MinLength(Nodes([c] + ([q] + after))) >= MinLength(Nodes(after))
    ensures MinLength(Nodes([q] + after)) == MinLength(Nodes(after[1..]))
  {
    NodesOfLiteral(c, [q] + after);
    NodesOfLiteral(q, after);
    assert ([q] + after)[1..] == after;
    MinLengthStep(Node(Lit(c), QuantOf([q] + after)), Nodes(after));
    MinLengthStep(Node(Lit(q), Some(Star)), Nodes(after[1..]));
  }

  lemma MinLengthStep(n: Node, rest: seq<Node>)
    ensures MinLength([n] + rest) == (if n.quant == Some(Star) then 0 else 1) + MinLength(rest)
  {
    assert ([n] + rest)[1..] == rest;
  }

  /** One more literal in front: marks that follow may change sides, but a difference remains. */
  lemma {:induction false} LiteralInFront(c: char, rest: string)
    requires c != '\\' && c != '.'
    ensures MarkFirst(Nodes(rest)) || MinLength(Nodes([c] + rest)) > MinLength(Nodes(rest))
    decreases |rest|
  {
    if !StartsQuantified(rest) {
      NodesOfLiteral(c, rest);
      MinLengthStep(Node(Lit(c), None), Nodes(rest));
    } else {
      var q, after := rest[0], rest[1..];
      assert rest == [q] + after;
      if QuantOf(after) == Some(Star) {
        var mark, next := after[0], after[1..];
        assert after == [mark] + next;
        LiteralInFront(mark, next);
        StarredMark(c, q, after);
        if MarkFirst(Nodes(next)) { MarkInFront(q, after); }
      } else {
        MarkInFront(q, after);
      }
    }
  }

  /** A pattern that starts with a caret it keeps has a word that starts with a caret. */
  lemma CaretWord(rest: string) returns (t: string)
    ensures InLanguage(Nodes("^" + rest), t) && t != [] && t[0] == '^'
  {
    NodesOfLiteral('^', rest);
    var nodes := Nodes("^" + rest);
    var tail := ShortestWord(nodes[1..]);
    t := "^" + tail;
    assert t[..1] == "^" && t[1..] == tail;
    LanguageOfCut(nodes, t, 1);
  }

  /** The two readings of a pattern with a lone caret differ on some text. */
  lemma LoneCaretMatters(pattern: string) returns (version: string)
    requires OpensOnly(pattern)
    ensures Accepts(pattern, version) != InLanguage(Nodes(Body(pattern)), version)
  {
    var rest := pattern[1..];
    assert Body(pattern) == rest && pattern == ['^'] + rest && "^" == ['^'];
    LiteralInFront('^', rest);
    if MarkFirst(Nodes(rest)) {
      version := CaretWord(rest);
    } else {
      version := ShortestWord(Nodes(rest));
      if InLanguage(Nodes(pattern), version) { NoShorterWord(Nodes(pattern), version); }
    }
  }

  lemma CutBeforeLast(t: string, k: nat)
    requires k < |t|
    ensures t[..|t| - 1][..k] == t[..k] && t[..|t| - 1][k..] == t[k..][..|t[k..]| - 1]
    ensures t[k..] != [] && t[k..][|t[k..]| - 1] == t[|t| - 1]
  {
  }

  lemma LastAfterFirst(nodes: seq<Node>, last: Node)
    requires nodes != []
    ensures (nodes + [last])[0] == nodes[0] && (nodes + [last])[1..] == nodes[1..] + [last]
  {
  }

  /** A last node without quantifier takes exactly the last character. */
  lemma {:induction false} LastTaken(nodes: seq<Node>, c: char, t: string)
    requires InLanguage(nodes + [Node(Lit(c), None)], t)
    ensures t != [] && t[|t| - 1] == c && InLanguage(nodes, t[..|t| - 1])
  {
    var all := nodes + [Node(Lit(c), None)];
    if nodes == [] {
      PlainNode(all, t);
      EmptyLanguage(t[1..]);
      EmptyLanguage(t[..|t| - 1]);
    } else {
      LastAfterFirst(nodes, Node(Lit(c), None));
      var k := CutOfLanguage(all, t);
      LastTaken(nodes[1..], c, t[k..]);
      CutBeforeLast(t, k);
      LanguageOfCut(nodes, t[..|t| - 1], k);
    }
  }

  lemma {:induction false} LastGiven(nodes: seq<Node>, c: char, t: string)
    requires t != [] && t[|t| - 1] == c && InLanguage(nodes, t[..|t| - 1])
    ensures InLanguage(nodes + [Node(Lit(c), None)], t)
  {
    var all := nodes + [Node(Lit(c), None)];
    if nodes == [] {
      EmptyLanguage(t[..|t| - 1]);
      EmptyLanguage(t[1..]);
      PlainNode(all, t);
    } else {
      LastAfterFirst(nodes, Node(Lit(c), None));
      var k := CutOfLanguage(nodes, t[..|t| - 1]);
      CutBeforeLast(t, k);
      LastGiven(nodes[1..], c, t[k..]);
      LanguageOfCut(all, t, k);
    }
  }

  lemma PlainLast(nodes: seq<Node>, c: char, t: string)
    ensures InLanguage(nodes + [Node(Lit(c), None)], t) <==>
      t != [] && t[|t| - 1] == c && InLanguage(nodes, t[..|t| - 1])
  {
    if InLanguage(nodes + [Node(Lit(c), None)], t) { LastTaken(nodes, c, t); }
    if t != [] && t[|t| - 1] == c && InLanguage(nodes, t[..|t| - 1]) { LastGiven(nodes, c, t); }
  }

  /** Text that does not end in an open escape is read the same in front of another token. */
  lemma {:induction false} NodesInFront(p: string, rest: string)
    requires !EndsInEscape(p) && !StartsQuantified(rest)
    ensures Nodes(p + rest) == Nodes(p) + Nodes(rest)
    decreases |p|
  {
    if p == "" {
      assert p + rest == rest;
    } else {
      var n := NodeLength(p);
      NodeInFront(p, rest);
      NodesInFront(p[n..], rest);
    }
  }

  lemma NodeInFront(p: string, rest: string)
    requires p != "" && !EndsInEscape(p) && !StartsQuantified(rest)
    ensures var n := NodeLength(p);
      NodeLength(p + rest) == n && NodeOf(p + rest) == NodeOf(p) && (p + rest)[n..] == p[n..] + rest
      && !EndsInEscape(p[n..])
  {
    var j := TokenLength(p);
    assert !EndsInEscape(p[j..]);
    assert (p + rest)[j..] == p[j..] + rest;
    if StartsQuantified(p[j..]) { assert p[j..][1..] == p[j + 1..]; }
  }

  /** An escaped closing dollar loses its dollar: what is left asks for a backslash in its place. */
  lemma EscapedDollarIsBackslash(pattern: string, version: string)
    requires EndsInEscapedDollar(pattern)
    ensures Accepts(pattern, version) <==>
      version != [] && version[|version| - 1] == '\\' && InLanguage(Nodes(Body(pattern)), version[..|version| - 1] + "$")
  {
    var p := WithoutCaret(pattern);
    CaretKeepsEscapes(pattern);
    var text := p[..|p| - 1];
    var open := OpenEscape(text);
    assert text == open + ['\\'] && p == open + ['\\', '$'];
    NodesInFront(open, ['\\']);
    NodesInFront(open, ['\\', '$']);
    assert Nodes(['\\']) == [Node(Lit('\\'), None)];
    assert Nodes(['\\', '$']) == [Node(Lit('$'), None)];
    PlainLast(Nodes(open), '\\', version);
    if version != [] {
      var other := version[..|version| - 1] + "$";
      PlainLast(Nodes(open), '$', other);
      assert other[..|other| - 1] == version[..|version| - 1];
    }
  }

  lemma CaretKeepsEscapes(pattern: string)
    requires EndsInDollar(pattern)
    ensures EndsInDollar(WithoutCaret(pattern))
    ensures EndsInEscapedDollar(WithoutCaret(pattern)) <==> EndsInEscapedDollar(pattern)
  {
    if pattern[0] == '^' { assert pattern[..|pattern| - 1][1..] == pattern[1..][..|pattern| - 2]; }
  }

  /** The backslash of an open escape, and the closed text before it. */
  lemma {:induction false} OpenEscape(p: string) returns (before: string)
    requires EndsInEscape(p)
    ensures p == before + ['\\'] && !EndsInEscape(before)
    decreases |p|
  {
    if |p| == 1 {
      before := "";
    } else {
      var n := if p[0] == '\\' then 2 else 1;
      var rest := OpenEscape(p[n..]);
      before := p[..n] + rest;
      assert before[n..] == rest;
    }
  }

  lemma EscapedDollarMatters(pattern: string) returns (version: string)
    requires EndsInEscapedDollar(pattern)
    ensures Accepts(pattern, version) != InLanguage(Nodes(Body(pattern)), version)
  {
    var p := WithoutCaret(pattern);
    CaretKeepsEscapes(pattern);
    var open := OpenEscape(p[..|p| - 1]);
    assert p == open + ['\\', '$'];
    NodesInFront(open, ['\\', '$']);
    assert Nodes(['\\', '$']) == [Node(Lit('$'), None)];
    version := ShortestWord(Nodes(Body(pattern)));
    PlainLast(Nodes(open), '$', version);
    EscapedDollarIsBackslash(pattern, version);
  }

  /**
    Anchors are implicit, as documented, exactly when the pattern does not open with a caret it
    never closes and does not close with a dollar it has escaped.
    */
  lemma AnchorsAreImplicitExactly(pattern: string)
    ensures (forall version :: Accepts(pattern, version) <==> InLanguage(Nodes(Body(pattern)), version))
      <==> !OpensOnly(pattern) && !EndsInEscapedDollar(pattern)
  {
    if OpensOnly(pattern) {
      var version := LoneCaretMatters(pattern);
    } else if EndsInEscapedDollar(pattern) {
      var version := EscapedDollarMatters(pattern);
    } else if EndsInDollar(pattern) {
      CaretKeepsEscapes(pattern);
    }
  }

  lemma EscapedDollarExample()
    ensures EndsInEscapedDollar("a\\$") && !OpensOnly("a\\$")
    ensures Nodes(Body("a\\$")) == Literally("a$")
  {
    var pattern := "a\\$";
    assert pattern == ['a'] + ['\\', '$'] && pattern[..2] == ['a', '\\'] && ['a', '\\'][1..] == ['\\'];
    NodesOfLiteral('a', ['\\', '$']);
    assert Nodes(['\\', '$']) == [Node(Lit('$'), None)];
  }

  /** `a\$` asks for a dollar, and gets a backslash. */
  lemma EscapedDollarRejected()
    ensures InLanguage(Nodes(Body("a\\$")), "a$") && !Accepts("a\\$", "a$") && Accepts("a\\$", "a\\")
    ensures !OpensOnly("a\\$")
  {
    EscapedDollarExample();
    LiterallyIsExact("a$", "a$");
    EscapedDollarIsBackslash("a\\$", "a$");
    EscapedDollarIsBackslash("a\\$", "a\\");
    assert "a\\"[..1] + "$" == "a$";
  }

  /** The rule Windows manifests carry never applies to a version that starts with a digit. */
  lemma LoneCaretMissesWindowsTen(version: string)
    requires version == [] || version[0] != '^'
    ensures !Accepts("^10\\.", version)
  {
    LoneCaretIsLiteral("^10\\.", version);
  }

  // ---------- escaping ----------

  function Literally(v: string): seq<Node> {
    seq(|v|, k requires 0 <= k < |v| => Node(Lit(v[k]), None))
  }

  lemma {:induction false} LiterallyIsExact(v: string, w: string)
    ensures InLanguage(Literally(v), w) <==> w == v
  {
    if v == [] {
      EmptyLanguage(w);
    } else {
      assert Literally(v)[1..] == Literally(v[1..]);
      PlainNode(Literally(v), w);
      if w != [] {
        LiterallyIsExact(v[1..], w[1..]);
        assert w == [w[0]] + w[1..] && v == [v[0]] + v[1..];
      }
    }
  }

  /** Escaping a version between both anchors gives the pattern of that version and no other. */
  lemma EscapedVersionIsExact(v: string, w: string)
    ensures Accepts("^" + Spell(Literally(v)) + "$", w) <==> w == v
  {
    var spelled := Spell(Literally(v));
    var pattern := "^" + spelled + "$";
    assert pattern[1..] == spelled + "$" && (spelled + "$")[..|spelled|] == spelled;
    assert Stripped(pattern) == spelled;
    SpellRoundTrip(Literally(v));
    LiterallyIsExact(v, w);
  }
}
