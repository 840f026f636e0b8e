/**
  Message interpolation (`i18n/format.rs`): the renderer and the placeholder scanner recognise the
  same `{name}` sites.
  */
module Interpolation {
  import opened Wrappers
  import opened Strings

  /** Named arguments; the first pair with a name wins. */
  type Arguments = seq<(string, string)>

  function Lookup(args: Arguments, name: string): Option<string> {
    if args == [] then None
    else if args[0].0 == name then Some(args[0].1)
    else Lookup(args[1..], name)
  }

  /** A literal character, a closed placeholder, or the rest after a brace never closed. */
  datatype Site = Text(c: char) | Hole(name: string) | Tail(rest: string)

  predicate Doubled(s: string) {
    |s| > 1 && s[1] == s[0]
  }

  function Sites(s: string): seq<Site> {
    if s == [] then []
    else if s[0] == '{' then
      if Doubled(s) then [Text('{')] + Sites(s[2..])
      else match Find(s[1..], '}')
           case Some(end) => [Hole(s[1..][..end])] + Sites(s[1..][end + 1..])
           case None => [Tail(s)]
    else if s[0] == '}' && Doubled(s) then [Text('}')] + Sites(s[2..])
    else [Text(s[0])] + Sites(s[1..])
  }

  function RenderOne(site: Site, args: Arguments): string {
    match site
    case Text(c) => [c]
    case Tail(rest) => rest
    case Hole(name) => match Lookup(args, name) case Some(v) => v case None => "{" + name + "}"
  }

  function Render(sites: seq<Site>, args: Arguments): string {
    if sites == [] then [] else RenderOne(sites[0], args) + Render(sites[1..], args)
  }

  function Holes(sites: seq<Site>): set<string> {
    if sites == [] then {} else (if sites[0].Hole? then {sites[0].name} else {}) + Holes(sites[1..])
  }

  /** What the parity test compares: the names that are more than blanks. */
  function Names(sites: seq<Site>): set<string> {
    set name | name in Holes(sites) && !Blank(name)
  }

  // ---------- the renderer ----------

  ghost predicate Rendered(template: string, i: nat, out: string, args: Arguments) {
    i <= |template| && out + Render(Sites(template[i..]), args) == Render(Sites(template), args)
  }

  lemma RenderedText(template: string, i: nat, next: nat, out: string, out': string, args: Arguments)
    requires Rendered(template, i, out, args) && i < |template| && out' == out + [template[i]]
    requires next == i + if template[i] in "{}" && Doubled(template[i..]) then 2 else 1
    requires template[i] == '{' ==> Doubled(template[i..])
    ensures Rendered(template, next, out', args)
  {
    var left := template[i..];
    assert left[next - i..] == template[next..];
    assert Sites(left)[0] == Text(template[i]) && Sites(left)[1..] == Sites(template[next..]);
    Associates(out, [template[i]], Render(Sites(template[next..]), args));
  }

  lemma RenderedHole(template: string, i: nat, end: nat, next: nat, piece: string, out: string, out': string,
      args: Arguments)
    requires Rendered(template, i, out, args) && i < |template| && template[i] == '{'
    requires !Doubled(template[i..]) && Find(template[i + 1..], '}') == Some(end)
    requires piece == RenderOne(Hole(template[i + 1..][..end]), args)
    requires next == i + end + 2 && out' == out + piece
    ensures Rendered(template, next, out', args)
  {
    var left, name := template[i..], template[i + 1..][..end];
    assert left[1..] == template[i + 1..] && template[i + 1..][end + 1..] == template[next..];
    assert Sites(left)[0] == Hole(name) && Sites(left)[1..] == Sites(template[next..]);
    Associates(out, piece, Render(Sites(template[next..]), args));
  }

  lemma RenderedTail(template: string, i: nat, out: string, args: Arguments)
    requires Rendered(template, i, out, args) && i < |template| && template[i] == '{'
    requires !Doubled(template[i..]) && Find(template[i + 1..], '}') == None
    ensures out + ("{" + template[i + 1..]) == Render(Sites(template), args)
  {
    var left := template[i..];
    assert left[1..] == template[i + 1..] && left == "{" + template[i + 1..];
    assert Sites(left) == [Tail(left)];
    assert Render([Tail(left)], args) == left + Render([], args);
  }

  /** The brace-free fast path gives what the general loop would. */
  lemma {:induction false} FastPath(template: string, args: Arguments)
    requires '{' !in template && '}' !in template
    ensures Render(Sites(template), args) == template
  {
    if template != [] {
      assert template[0] in template;
      forall c | c in template[1..] ensures c in template {}
      FastPath(template[1..], args);
      assert Sites(template)[1..] == Sites(template[1..]);
    }
  }

  method FindArgument(args: Arguments, name: string) returns (r: Option<string>)
    ensures r == Lookup(args, name)
  {
    for k := 0 to |args|
      invariant Lookup(args, name) == Lookup(args[k..], name)
    {
      assert args[k..][1..] == args[k + 1..];
      if args[k].0 == name { return Some(args[k].1); }
    }
    r := None;
  }

  method Interpolate(template: string, args: Arguments) returns (out: string)
    ensures out == Render(Sites(template), args)
  {
    if Find(template, '{') == None && Find(template, '}') == None {
      FastPath(template, args);
      return template;
    }
    out := [];
    var i := 0;
    assert template[0..] == template;
    while i < |template|
      invariant Rendered(template, i, out, args)
      decreases |template| - i
    {
      var c := template[i];
      var doubled := i + 1 < |template| && template[i + 1] == c;
      assert doubled == Doubled(template[i..]);
      if c == '{' && !doubled {
        var rest := template[i + 1..];
        var end := Find(rest, '}');
        if end.None? {
          RenderedTail(template, i, out, args);
          out := out + ("{" + rest);
          return;
        }
        var name := rest[..end.value];
        var v := FindArgument(args, name);
        var piece := if v.Some? then v.value else "{" + name + "}";
        var next, extended := i + end.value + 2, out + piece;
        RenderedHole(template, i, end.value, next, piece, out, extended, args);
        i, out := next, extended;
      } else {
        var next := i + if (c == '{' || c == '}') && doubled then 2 else 1;
        var extended := out + [c];
        RenderedText(template, i, next, out, extended, args);
        i, out := next, extended;
      }
    }
  }

  // ---------- the placeholder scanner ----------

  lemma HolesOfDoubled(s: string)
    requires s != [] && s[0] == '{' && Doubled(s)
    ensures Holes(Sites(s)) == Holes(Sites(s[2..]))
  {
    assert Sites(s)[1..] == Sites(s[2..]);
  }

  lemma HolesOfHole(s: string, end: nat)
    requires s != [] && s[0] == '{' && !Doubled(s) && Find(s[1..], '}') == Some(end)
    ensures Holes(Sites(s)) == {s[1..][..end]} + Holes(Sites(s[1..][end + 1..]))
  {
    assert Sites(s)[1..] == Sites(s[1..][end + 1..]);
  }

  /** The scanner steps over a doubled closing brace one at a time; the renderer takes both. */
  lemma {:induction false} HolesSkip(s: string)
    requires s != [] && s[0] != '{'
    ensures Holes(Sites(s)) == Holes(Sites(s[1..]))
  {
    if s[0] == '}' && Doubled(s) {
      assert Sites(s)[1..] == Sites(s[2..]) && s[1..][1..] == s[2..];
      HolesSkip(s[1..]);
    } else {
      assert Sites(s)[1..] == Sites(s[1..]);
    }
  }

  ghost predicate Scanned(template: string, i: nat, out: set<string>) {
    i <= |template| && out + Names(Sites(template[i..])) == Names(Sites(template))
  }

  lemma ScannedStep(template: string, i: nat, next: nat, more: set<string>, out: set<string>)
    requires Scanned(template, i, out) && i <= next <= |template|
    requires Holes(Sites(template[i..])) == more + Holes(Sites(template[next..]))
    ensures Scanned(template, next, out + set name | name in more && !Blank(name))
  {
  }

  lemma ScannedOther(template: string, i: nat, out: set<string>)
    requires Scanned(template, i, out) && i < |template| && template[i] != '{'
    ensures Scanned(template, i + 1, out)
  {
    HolesSkip(template[i..]);
    assert template[i..][1..] == template[i + 1..];
  }

  lemma ScannedDoubled(template: string, i: nat, out: set<string>)
    requires Scanned(template, i, out) && i + 1 < |template| && template[i] == '{' == template[i + 1]
    ensures Scanned(template, i + 2, out)
  {
    HolesOfDoubled(template[i..]);
    assert template[i..][2..] == template[i + 2..];
  }

  lemma ScannedTail(template: string, i: nat, out: set<string>)
    requires Scanned(template, i, out) && i < |template| && template[i] == '{' && !Doubled(template[i..])
    requires Find(template[i + 1..], '}') == None
    ensures out == Names(Sites(template))
  {
    assert template[i..][1..] == template[i + 1..];
    assert Sites(template[i..]) == [Tail(template[i..])];
    assert Holes([Tail(template[i..])]) == {};
  }

  lemma ScannedHole(template: string, i: nat, end: nat, out: set<string>)
    requires Scanned(template, i, out) && i < |template| && template[i] == '{' && !Doubled(template[i..])
    requires Find(template[i + 1..], '}') == Some(end)
    ensures var name := template[i + 1..][..end];
      Scanned(template, i + end + 2, if Blank(name) then out else out + {name})
  {
    var name := template[i + 1..][..end];
    assert template[i..][1..] == template[i + 1..];
    HolesOfHole(template[i..], end);
    assert template[i + 1..][end + 1..] == template[i + end + 2..];
    ScannedStep(template, i, i + end + 2, {name}, out);
    assert (set n | n in {name} && !Blank(n)) == if Blank(name) then {} else {name};
    assert out + {} == out;
  }

  lemma ScannedAll(template: string, out: set<string>)
    requires Scanned(template, |template|, out)
    ensures out == Names(Sites(template))
  {
    assert template[|template|..] == "" && Names(Sites("")) == {};
  }

  method Placeholders(template: string) returns (out: set<string>)
    ensures out == Names(Sites(template))
  {
    out := {};
    var i := 0;
    assert template[0..] == template;
    while i < |template|
      invariant i <= |template| && Scanned(template, i, out)
      decreases |template| - i
    {
      if template[i] == '{' {
        if i + 1 < |template| && template[i + 1] == '{' {
          ScannedDoubled(template, i, out);
          i := i + 2;
          continue;
        }
        var rel := Find(template[i + 1..], '}');
        if rel.None? {
          ScannedTail(template, i, out);
          return;
        }
        var name := template[i + 1..][..rel.value];
        ScannedHole(template, i, rel.value, out);
        if !Blank(name) {
          out := out + {name};
        }
        i := i + rel.value + 2;
        continue;
      }
      ScannedOther(template, i, out);
      i := i + 1;
    }
    ScannedAll(template, out);
  }

  // ---------- what the output depends on ----------

  predicate Agree(a: Arguments, b: Arguments, name: string) {
    Lookup(a, name) == Lookup(b, name)
  }

  lemma {:induction false} SameHolesSameOutput(sites: seq<Site>, a: Arguments, b: Arguments)
    requires forall name | name in Holes(sites) :: Agree(a, b, name)
    ensures Render(sites, a) == Render(sites, b)
  {
    if sites != [] {
      SameHolesSameOutput(sites[1..], a, b);
      if sites[0].Hole? { assert Agree(a, b, sites[0].name); }
    }
  }

  /** Arguments that agree on the reported names and on blank ones cannot be told apart. */
  lemma SamePlaceholdersSameOutput(template: string, a: Arguments, b: Arguments)
    requires forall name | name in Names(Sites(template)) || Blank(name) :: Agree(a, b, name)
    ensures Render(Sites(template), a) == Render(Sites(template), b)
  {
    SameHolesSameOutput(Sites(template), a, b);
  }

  /** A longer value for a name makes the output longer wherever the name is a site. */
  lemma {:induction false} LongerValueLongerOutput(sites: seq<Site>, name: string)
    ensures |Render(sites, [(name, "x")])| >= |Render(sites, [(name, "")])|
    ensures name in Holes(sites) ==> |Render(sites, [(name, "x")])| > |Render(sites, [(name, "")])|
  {
    if sites != [] {
      LongerValueLongerOutput(sites[1..], name);
      var site := sites[0];
      if site.Hole? {
        LookupOne(name, "x", site.name);
        LookupOne(name, "", site.name);
      }
    }
  }

  ghost predicate DifferOnlyAt(a: Arguments, b: Arguments, name: string) {
    forall other | other != name :: Agree(a, b, other)
  }

  ghost predicate OutputDependsOn(template: string, name: string) {
    exists a, b :: DifferOnlyAt(a, b, name) && Render(Sites(template), a) != Render(Sites(template), b)
  }

  lemma LookupOne(name: string, value: string, other: string)
    ensures Lookup([(name, value)], other) == if other == name then Some(value) else None
  {
    assert [(name, value)][1..] == [];
  }

  /** The reported placeholders are exactly the non-blank names the output depends on. */
  lemma PlaceholdersAreTheDependencies(template: string, name: string)
    ensures name in Names(Sites(template)) <==> !Blank(name) && OutputDependsOn(template, name)
  {
    var sites := Sites(template);
    var a, b := [(name, "x")], [(name, "")];
    if name in Names(sites) {
      LongerValueLongerOutput(sites, name);
      forall other | other != name ensures Agree(a, b, other) {
        LookupOne(name, "x", other);
        LookupOne(name, "", other);
      }
      assert DifferOnlyAt(a, b, name);
    } else if OutputDependsOn(template, name) {
      var a, b :| DifferOnlyAt(a, b, name) && Render(sites, a) != Render(sites, b);
      if name !in Holes(sites) { SameHolesSameOutput(sites, a, b); }
    }
  }

  // ---------- every list of sites has a spelling, and values are never rescanned ----------

  /** A name that can be written between braces. */
  predicate Writable(name: string) {
    '}' !in name && (name != [] ==> name[0] != '{')
  }

  predicate Spellable(sites: seq<Site>) {
    forall k | 0 <= k < |sites| :: !sites[k].Tail? && (sites[k].Hole? ==> Writable(sites[k].name))
  }

  function SpellOne(site: Site): string
    requires !site.Tail?
  {
    match site
    case Text(c) => if c == '{' || c == '}' then [c, c] else [c]
    case Hole(name) => "{" + name + "}"
  }

  function Spell(sites: seq<Site>): string
    requires Spellable(sites)
  {
    if sites == [] then [] else SpellOne(sites[0]) + Spell(sites[1..])
  }

  lemma SpelledSite(site: Site, rest: string)
    requires !site.Tail? && (site.Hole? ==> Writable(site.name))
    ensures Sites(SpellOne(site) + rest) == [site] + Sites(rest)
  {
    var s := SpellOne(site) + rest;
    match site
    case Text(c) =>
      assert s[|SpellOne(site)|..] == rest;
    case Hole(name) =>
      var after := name + "}" + rest;
      assert s[1..] == after && after[..|name|] == name && after[|name|] == '}';
      FindIs(after, '}', |name|);
      assert after[|name| + 1..] == rest;
  }

  lemma {:induction false} SpellRoundTrip(sites: seq<Site>)
    requires Spellable(sites)
    ensures Sites(Spell(sites)) == sites
  {
    if sites != [] {
      SpellRoundTrip(sites[1..]);
      SpelledSite(sites[0], Spell(sites[1..]));
    }
  }

  function Literally(v: string): (sites: seq<Site>)
    ensures Spellable(sites)
  {
    seq(|v|, k requires 0 <= k < |v| => Text(v[k]))
  }

  lemma {:induction false} LiteralRender(v: string, rest: seq<Site>, args: Arguments)
    ensures Render(Literally(v) + rest, args) == v + Render(rest, args)
  {
    if v == [] {
      assert Literally(v) + rest == rest;
    } else {
      assert (Literally(v) + rest)[1..] == Literally(v[1..]) + rest;
      LiteralRender(v[1..], rest, args);
    }
  }

  /** Between escaped texts a site is rendered, and they are copied. */
  lemma AroundSite(before: string, site: Site, after: string, args: Arguments)
    requires !site.Tail? && (site.Hole? ==> Writable(site.name))
    ensures var template := Spell(Literally(before) + ([site] + Literally(after)));
      Render(Sites(template), args) == before + (RenderOne(site, args) + after)
  {
    var rest := [site] + Literally(after);
    SpellRoundTrip(Literally(before) + rest);
    LiteralRender(before, rest, args);
    LiteralRender(after, [], args);
    assert Literally(after) + [] == Literally(after) && rest[1..] == Literally(after);
  }

  /**
    Between escaped texts a placeholder is replaced by its value as it stands, whatever braces the
    value or its surroundings contain.
    */
  lemma ValuesAreNotRescanned(before: string, name: string, after: string, value: string, args: Arguments)
    requires Writable(name) && Lookup(args, name) == Some(value)
    ensures var template := Spell(Literally(before) + ([Hole(name)] + Literally(after)));
      Render(Sites(template), args) == before + (value + after)
  {
    AroundSite(before, Hole(name), after, args);
  }

  /** The first argument of a name counts. */
  lemma {:induction false} FirstArgumentCounts(args: Arguments, name: string)
    ensures forall k | 0 <= k < |args| && args[k].0 == name && (forall j | 0 <= j < k :: args[j].0 != name) ::
      Lookup(args, name) == Some(args[k].1)
    ensures (forall k | 0 <= k < |args| :: args[k].0 != name) ==> Lookup(args, name) == None
  {
    if args != [] {
      FirstArgumentCounts(args[1..], name);
      forall k | 0 <= k < |args| && args[k].0 == name && (forall j | 0 <= j < k :: args[j].0 != name)
        ensures Lookup(args, name) == Some(args[k].1)
      {
        if k > 0 {
          assert args[1..][k - 1] == args[k];
          forall j | 0 <= j < k - 1 ensures args[1..][j].0 != name { assert args[1..][j] == args[j + 1]; }
        }
      }
      if forall k | 0 <= k < |args| :: args[k].0 != name {
        forall k | 0 <= k < |args[1..]| ensures args[1..][k].0 != name { assert args[1..][k] == args[k + 1]; }
      }
    }
  }

  /** A placeholder nobody has an argument for stays as it is written. */
  lemma {:induction false} UnknownNameStays(before: string, name: string, after: string, args: Arguments)
    requires Writable(name) && forall k | 0 <= k < |args| :: args[k].0 != name
    ensures var template := Spell(Literally(before) + ([Hole(name)] + Literally(after)));
      Render(Sites(template), args) == before + ("{" + name + "}" + after)
  {
    FirstArgumentCounts(args, name);
    AroundSite(before, Hole(name), after, args);
  }

  lemma UnclosedIsTail(s: string)
    requires s != "" && s[0] == '{' && !Doubled(s) && '}' !in s
    ensures Sites(s) == [Tail(s)]
  {
    assert Find(s[1..], '}') == None;
  }

  /** A brace that is never closed, and what follows it, stay as they are written. */
  lemma {:induction false} UnclosedBraceStays(before: string, s: string, args: Arguments)
    requires s != "" && s[0] == '{' && !Doubled(s) && '}' !in s
    ensures Render(Sites(Spell(Literally(before)) + s), args) == before + s
  {
    UnclosedIsTail(s);
    LiterallyThen(before, s);
    LiteralRender(before, [Tail(s)], args);
    TailAlone(s, args);
  }

  lemma TailAlone(s: string, args: Arguments)
    ensures Render([Tail(s)], args) == s
  {
    assert [Tail(s)][1..] == [] && s + [] == s;
  }

  lemma {:induction false} LiterallyThen(before: string, rest: string)
    ensures Sites(Spell(Literally(before)) + rest) == Literally(before) + Sites(rest)
  {
    if before == "" {
      assert Spell(Literally(before)) + rest == rest && Literally(before) + Sites(rest) == Sites(rest);
    } else {
      var tail := Spell(Literally(before[1..]));
      assert Literally(before)[1..] == Literally(before[1..]);
      SpelledSite(Text(before[0]), tail + rest);
      Associates(SpellOne(Text(before[0])), tail, rest);
      LiterallyThen(before[1..], rest);
      Associates([Text(before[0])], Literally(before[1..]), Sites(rest));
      assert Literally(before) == [Text(before[0])] + Literally(before[1..]);
    }
  }

  /** What the spelling is: braces doubled, everything else as it stands. */
  lemma {:induction false} SpelledLiterally(v: string)
    ensures Spell(Literally(v)) == if v == "" then "" else
      (if v[0] == '{' then "{{" else if v[0] == '}' then "}}" else [v[0]]) + Spell(Literally(v[1..]))
  {
    if v != "" { assert Literally(v)[1..] == Literally(v[1..]); }
  }
}
