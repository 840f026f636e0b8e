/** What a launch-argument template means (`launch/args.rs`), placeholder by placeholder. */
module TemplateReading {
  import opened Wrappers
  import opened Strings
  import opened Templates

  /** A text in which no placeholder begins or ends. */
  predicate NoDollar(s: string) {
    '$' !in s
  }

  /** Such a text is copied, whatever follows it. */
  lemma {:induction false} TextIsCopied(s: string, rest: string, table: Table)
    requires NoDollar(s)
    ensures Expand(Tokens(s + rest), table) == s + Expand(Tokens(rest), table)
    ensures Missing(Tokens(s + rest), table) == Missing(Tokens(rest), table)
  {
    if s == "" {
      assert s + rest == rest && s + Expand(Tokens(rest), table) == Expand(Tokens(rest), table);
    } else {
      assert s[0] in s && (s + rest)[1..] == s[1..] + rest;
      TextAt(s + rest, table);
      TextIsCopied(s[1..], rest, table);
      Associates([s[0]], s[1..], Expand(Tokens(rest), table));
      assert [s[0]] + s[1..] == s;
    }
  }

  lemma HoleInFront(key: string, rest: string, table: Table)
    requires '}' !in key
    ensures var s := "${" + key + "}" + rest;
      && OpensAt(s, 0) && Find(s[2..], '}') == Some(|key|) && s[2..][..|key|] == key && s[2..][|key| + 1..] == rest
  {
    var s := "${" + key + "}" + rest;
    assert s[2..] == key + "}" + rest;
    assert s[2..][..|key|] == key;
    FindIs(s[2..], '}', |key|);
  }

  /** A placeholder is replaced by its value, or stays as written and is listed when there is none. */
  lemma PlaceholderIsReplaced(key: string, rest: string, table: Table)
    requires '}' !in key
    ensures key in table ==>
      && Expand(Tokens("${" + key + "}" + rest), table) == table[key] + Expand(Tokens(rest), table)
      && Missing(Tokens("${" + key + "}" + rest), table) == Missing(Tokens(rest), table)
    ensures key !in table ==>
      && Expand(Tokens("${" + key + "}" + rest), table) == "${" + key + "}" + Expand(Tokens(rest), table)
      && Missing(Tokens("${" + key + "}" + rest), table) == [key] + Missing(Tokens(rest), table)
  {
    HoleInFront(key, rest, table);
    HoleAt("${" + key + "}" + rest, |key|, table);
  }

  /** An opening that is never closed stays, with all that follows it. */
  lemma UnclosedStays(rest: string, table: Table)
    requires '}' !in rest
    ensures Expand(Tokens("${" + rest), table) == "${" + rest && Missing(Tokens("${" + rest), table) == []
  {
    var s := "${" + rest;
    assert s[2..] == rest;
    TailAt(s, table);
  }

  /** A dollar that opens nothing is copied. */
  lemma LoneDollarIsCopied(rest: string, table: Table)
    requires rest == "" || rest[0] != '{'
    ensures Expand(Tokens("$" + rest), table) == "$" + Expand(Tokens(rest), table)
    ensures Missing(Tokens("$" + rest), table) == Missing(Tokens(rest), table)
  {
    var s := "$" + rest;
    assert s[1..] == rest;
    TextAt(s, table);
  }

  /** Put together: what stands around a placeholder is copied, the value is inserted and not looked at again. */
  lemma ValueIsInserted(before: string, key: string, value: string, after: string, table: Table)
    requires NoDollar(before) && NoDollar(after) && '}' !in key && key in table && table[key] == value
    ensures Expand(Tokens(before + ("${" + key + "}" + after)), table) == before + value + after
  {
    TextIsCopied(before, "${" + key + "}" + after, table);
    PlaceholderIsReplaced(key, after, table);
    TextIsCopied(after, "", table);
    assert after + "" == after;
    Associates(before, value, after);
  }
}
