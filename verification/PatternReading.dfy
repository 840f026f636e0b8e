/** What the parts of an OS-version pattern stand for (`game/platform.rs`), character by character. */
module PatternReading {
  import opened Wrappers
  import opened PatternMatcher

  /** `.` is any character, `\d` one of the ten digits, anything else itself. */
  predicate StandsFor(tok: Tok, c: char) {
    match tok
    case Lit(own) => c == own
    case Any => true
    case Digit => 48 <= c as int <= 57
  }

  /** Without a quantifier one character, with `*` any number and with `+` at least one. */
  predicate SoMany(quant: Option<Quant>, n: nat) {
    match quant
    case None => n == 1
    case Some(Star) => true
    case Some(Plus) => n > 0
  }

  predicate Repeats(node: Node, s: string) {
    SoMany(node.quant, |s|) && forall k | 0 <= k < |s| :: StandsFor(node.tok, s[k])
  }

  lemma PieceIs(node: Node, s: string)
    ensures Piece(node, s) <==> Repeats(node, s)
  {
    forall k | 0 <= k < |s| ensures MatchOne(node.tok, s[k]) <==> StandsFor(node.tok, s[k]) {}
  }

  lemma OneNode(node: Node, s: string)
    ensures InLanguage([node], s) <==> Repeats(node, s)
  {
    PieceIs(node, s);
    assert [node][1..] == [];
    if InLanguage([node], s) {
      var k := CutOfLanguage([node], s);
      EmptyLanguage(s[k..]);
      assert s[..k] == s;
    }
    if Repeats(node, s) {
      EmptyLanguage(s[|s|..]);
      assert s[..|s|] == s;
      LanguageOfCut([node], s, |s|);
    }
  }

  /** A literal beginning and one more node. */
  lemma {:induction false} BeginningThen(v: string, node: Node, w: string)
    ensures InLanguage(Literally(v) + [node], w) <==> v <= w && Repeats(node, w[|v|..])
  {
    var nodes := Literally(v) + [node];
    if v == "" {
      assert nodes == [node] && w[0..] == w;
      OneNode(node, w);
    } else {
      assert nodes[0] == Node(Lit(v[0]), None) && nodes[1..] == Literally(v[1..]) + [node];
      PlainNode(nodes, w);
      if w != "" {
        BeginningThen(v[1..], node, w[1..]);
        FirstThenRest(v, w);
      }
    }
  }

  lemma FirstThenRest(v: string, w: string)
    requires v != "" && w != ""
    ensures v <= w <==> v[0] == w[0] && v[1..] <= w[1..]
    ensures v <= w ==> w[1..][|v| - 1..] == w[|v|..]
  {
    assert v == [v[0]] + v[1..] && w == [w[0]] + w[1..];
  }

  lemma SpelledAppend(v: string, node: Node)
    ensures Spell(Literally(v) + [node]) == Spell(Literally(v)) + SpellNode(node)
  {
    SpellAppend(Literally(v), node);
  }

  lemma {:induction false} SpellAppend(nodes: seq<Node>, node: Node)
    ensures Spell(nodes + [node]) == Spell(nodes) + SpellNode(node)
  {
    if nodes == [] {
      assert [] + [node] == [node] && [node][1..] == [];
      assert SpellNode(node) + "" == SpellNode(node) && "" + SpellNode(node) == SpellNode(node);
    } else {
      assert (nodes + [node])[1..] == nodes[1..] + [node];
      SpellAppend(nodes[1..], node);
      assert SpellNode(nodes[0]) + (Spell(nodes[1..]) + SpellNode(node)) == Spell(nodes) + SpellNode(node);
    }
  }

  /**
    A version, escaped, followed by one node: the versions accepted are those that begin with it and go
    on with as many characters of the node's class as its quantifier allows, and no others.
    */
  lemma BeginningAndClass(v: string, node: Node, w: string)
    ensures Accepts("^" + (Spell(Literally(v)) + SpellNode(node)) + "$", w) <==> v <= w && Repeats(node, w[|v|..])
  {
    var spelled := Spell(Literally(v)) + SpellNode(node);
    var pattern := "^" + spelled + "$";
    assert pattern[1..] == spelled + "$" && (spelled + "$")[..|spelled|] == spelled;
    assert Stripped(pattern) == spelled;
    SpelledAppend(v, node);
    SpellRoundTrip(Literally(v) + [node]);
    BeginningThen(v, node, w);
  }

  /** How the parts are written. */
  lemma WrittenAs()
    ensures SpellNode(Node(Digit, Some(Plus))) == "\\d+" && SpellNode(Node(Digit, Some(Star))) == "\\d*"
    ensures SpellNode(Node(Any, Some(Star))) == ".*" && SpellNode(Node(Any, None)) == "."
    ensures Spell(Literally("10.")) == "\\1\\0\\."
  {
    assert Literally("10.") == [Node(Lit('1'), None), Node(Lit('0'), None), Node(Lit('.'), None)];
    assert Literally("10.")[1..] == [Node(Lit('0'), None), Node(Lit('.'), None)];
    assert Literally("10.")[1..][1..] == [Node(Lit('.'), None)] && [Node(Lit('.'), None)][1..] == [];
  }

  /** `^\1\0\.\d+$`: `10.`, then one or more digits. */
  lemma TenDotDigits(w: string)
    ensures Accepts("^\\1\\0\\.\\d+$", w) <==>
      && |w| >= 4 && w[0] == '1' && w[1] == '0' && w[2] == '.' && forall k | 3 <= k < |w| :: 48 <= w[k] as int <= 57
  {
    var v, node := "10.", Node(Digit, Some(Plus));
    BeginningAndClass(v, node, w);
    TenDotSpelled(v, node);
    TenDot(w, v);
  }

  lemma TenDotSpelled(v: string, node: Node)
    requires v == "10." && node == Node(Digit, Some(Plus))
    ensures "^" + (Spell(Literally(v)) + SpellNode(node)) + "$" == "^\\1\\0\\.\\d+$"
  {
    WrittenAs();
  }

  lemma TenDot(w: string, v: string)
    requires |v| == 3 && v[0] == '1' && v[1] == '0' && v[2] == '.'
    ensures v <= w && Repeats(Node(Digit, Some(Plus)), w[3..]) <==>
      && |w| >= 4 && w[0] == '1' && w[1] == '0' && w[2] == '.' && forall k | 3 <= k < |w| :: 48 <= w[k] as int <= 57
  {
    if v <= w {
      assert w[0] == v[0] && w[1] == v[1] && w[2] == v[2];
      assert forall k | 3 <= k < |w| :: w[k] == w[3..][k - 3];
    }
    if |w| >= 4 && w[0] == '1' && w[1] == '0' && w[2] == '.' { assert w[..3] == v; }
  }
}
