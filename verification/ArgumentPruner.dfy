/** Dropping the arguments that stay unresolved, together with their flags (`launch/args.rs`). */
module ArgumentPruner {
  import opened Wrappers
  import opened Templates

  predicate IsFlag(s: string) {
    |s| > 1 && s[0] == '-'
  }

  /** An argument: where it stands, as written, as expanded, and the keys its expanded text leaves unknown. */
  datatype Argument = Argument(position: nat, raw: string, expanded: string, missing: seq<string>)

  function Examined(position: nat, raw: string, table: Table): Argument {
    var expanded := Expand(Tokens(raw), table);
    Argument(position, raw, expanded, Missing(Tokens(expanded), table))
  }

  function Examine(raws: seq<string>, table: Table): (args: seq<Argument>)
    ensures |args| == |raws|
  {
    seq(|raws|, k requires 0 <= k < |raws| => Examined(k, raws[k], table))
  }

  predicate Resolved(a: Argument) {
    a.missing == []
  }

  /** A dropped value and the flag, if any, dropped with it. */
  datatype Drop = Drop(value: Argument, flag: Option<Argument>)

  /** A stack of kept arguments, and the drops, oldest first. */
  datatype Pruned = Pruned(kept: seq<Argument>, drops: seq<Drop>)

  predicate TopIsFlag(kept: seq<Argument>) {
    kept != [] && IsFlag(kept[|kept| - 1].expanded)
  }

  function Take(p: Pruned, a: Argument): Pruned {
    if Resolved(a) then Pruned(p.kept + [a], p.drops)
    else if TopIsFlag(p.kept) then
      Pruned(p.kept[..|p.kept| - 1], p.drops + [Drop(a, Some(p.kept[|p.kept| - 1]))])
    else Pruned(p.kept, p.drops + [Drop(a, None)])
  }

  /** What the first `n` arguments leave. */
  function Prune(args: seq<Argument>, n: nat): Pruned
    requires n <= |args|
  {
    if n == 0 then Pruned([], []) else Take(Prune(args, n - 1), args[n - 1])
  }

  // ---------- the loop ----------

  function Join(keys: seq<string>, separator: string): string {
    if keys == [] then "" else if |keys| == 1 then keys[0] else keys[0] + separator + Join(keys[1..], separator)
  }

  function Texts(kept: seq<Argument>): seq<string> {
    seq(|kept|, k requires 0 <= k < |kept| => kept[k].expanded)
  }

  function NoteOf(a: Argument): string {
    a.raw + " (unresolved ${" + Join(a.missing, "}, ${") + "})"
  }

  function Note(d: Drop): string {
    if d.flag.Some? then d.flag.value.expanded + " " + NoteOf(d.value) else NoteOf(d.value)
  }

  function Notes(drops: seq<Drop>): seq<string> {
    seq(|drops|, k requires 0 <= k < |drops| => Note(drops[k]))
  }

  /** One more argument, in terms of the two lists the loop holds. */
  lemma TakeStep(p: Pruned, a: Argument, out: seq<string>, dropped: seq<string>)
    requires out == Texts(p.kept) && dropped == Notes(p.drops)
    ensures var next := Take(p, a);
      if a.missing == [] then Texts(next.kept) == out + [a.expanded] && Notes(next.drops) == dropped
      else if out != [] && IsFlag(out[|out| - 1]) then
        && Texts(next.kept) == out[..|out| - 1]
        && Notes(next.drops) == dropped + [out[|out| - 1] + " " + NoteOf(a)]
      else Texts(next.kept) == out && Notes(next.drops) == dropped + [NoteOf(a)]
  {
  }

  method TakeArgument(ghost p: Pruned, ghost a: Argument, out0: seq<string>, dropped0: seq<string>,
      raw: string, expanded: string, missing: seq<string>)
    returns (out: seq<string>, dropped: seq<string>)
    requires out0 == Texts(p.kept) && dropped0 == Notes(p.drops)
    requires a.raw == raw && a.expanded == expanded && a.missing == missing
    ensures out == Texts(Take(p, a).kept) && dropped == Notes(Take(p, a).drops)
  {
    out, dropped := out0, dropped0;
    TakeStep(p, a, out, dropped);
    if missing == [] {
      out := out + [expanded];
      return;
    }
    var note := raw + " (unresolved ${" + Join(missing, "}, ${") + "})";
    if out != [] {
      var prev := out[|out| - 1];
      if IsFlag(prev) {
        note := prev + " " + note;
        out := out[..|out| - 1];
      }
    }
    dropped := dropped + [note];
  }

  lemma ExaminedAt(raws: seq<string>, table: Table, i: nat)
    requires i < |raws|
    ensures Examine(raws, table)[i] == Examined(i, raws[i], table)
  {
  }

  lemma PruneNext(args: seq<Argument>, i: nat)
    requires i < |args|
    ensures Prune(args, i + 1) == Take(Prune(args, i), args[i])
  {
  }

  /** `prune_unresolved`: the surviving arguments and one note for each dropped value. */
  method PruneUnresolved(raws: seq<string>, subs: Substitutions) returns (out: seq<string>, dropped: seq<string>)
    ensures var args := Examine(raws, subs.table);
      out == Texts(Prune(args, |args|).kept) && dropped == Notes(Prune(args, |args|).drops)
  {
    out, dropped := [], [];
    ghost var args := Examine(raws, subs.table);
    for i := 0 to |raws|
      invariant out == Texts(Prune(args, i).kept)
      invariant dropped == Notes(Prune(args, i).drops)
    {
      ExaminedAt(raws, subs.table, i);
      PruneNext(args, i);
      var expanded := subs.Apply(raws[i]);
      var missing := subs.Unresolved(expanded);
      out, dropped := TakeArgument(Prune(args, i), args[i], out, dropped, raws[i], expanded, missing);
    }
  }

  // ---------- what is kept and what is dropped ----------

  function Values(drops: seq<Drop>): seq<Argument> {
    if drops == [] then [] else Values(drops[..|drops| - 1]) + [drops[|drops| - 1].value]
  }

  function Flags(drops: seq<Drop>): seq<Argument> {
    if drops == [] then []
    else if drops[|drops| - 1].flag.None? then Flags(drops[..|drops| - 1])
    else Flags(drops[..|drops| - 1]) + [drops[|drops| - 1].flag.value]
  }

  function UnresolvedOnes(args: seq<Argument>, n: nat): seq<Argument>
    requires n <= |args|
  {
    if n == 0 then []
    else if Resolved(args[n - 1]) then UnresolvedOnes(args, n - 1)
    else UnresolvedOnes(args, n - 1) + [args[n - 1]]
  }

  lemma DropAdded(drops: seq<Drop>, d: Drop)
    ensures Values(drops + [d]) == Values(drops) + [d.value]
    ensures Flags(drops + [d]) == Flags(drops) + (if d.flag.Some? then [d.flag.value] else [])
  {
    var all := drops + [d];
    assert all[..|all| - 1] == drops && all[|all| - 1] == d;
  }

  /** Everything seen is kept, a dropped value or a dropped flag, as often as it was seen. */
  ghost predicate Accounts(p: Pruned, seen: seq<Argument>) {
    multiset(p.kept) + multiset(Values(p.drops)) + multiset(Flags(p.drops)) == multiset(seen)
  }

  lemma Moved<T>(rest: seq<T>, top: T, values: seq<T>, flags: seq<T>, a: T)
    ensures multiset(rest) + multiset(values + [a]) + multiset(flags + [top]) ==
      multiset(rest + [top]) + multiset(values) + multiset(flags) + multiset{a}
  {
  }

  lemma SeenMore<T>(seen: seq<T>, a: T)
    ensures multiset(seen + [a]) == multiset(seen) + multiset{a}
  {
  }

  lemma FlagAccounts(p: Pruned, seen: seq<Argument>, a: Argument)
    requires Accounts(p, seen) && !Resolved(a) && TopIsFlag(p.kept)
    ensures Accounts(Take(p, a), seen + [a])
  {
    var rest, top := p.kept[..|p.kept| - 1], p.kept[|p.kept| - 1];
    assert p.kept == rest + [top];
    DropAdded(p.drops, Drop(a, Some(top)));
    Moved(rest, top, Values(p.drops), Flags(p.drops), a);
    SeenMore(seen, a);
  }

  lemma ValueAccounts(p: Pruned, seen: seq<Argument>, a: Argument)
    requires Accounts(p, seen) && !Resolved(a) && !TopIsFlag(p.kept)
    ensures Accounts(Take(p, a), seen + [a])
  {
    DropAdded(p.drops, Drop(a, None));
    SeenMore(seen, a);
    SeenMore(Values(p.drops), a);
    assert Flags(p.drops) + [] == Flags(p.drops);
  }

  lemma AccountsStep(p: Pruned, seen: seq<Argument>, a: Argument)
    requires Accounts(p, seen)
    ensures Accounts(Take(p, a), seen + [a])
  {
    if Resolved(a) {
      SeenMore(seen, a);
      SeenMore(p.kept, a);
    } else if TopIsFlag(p.kept) {
      FlagAccounts(p, seen, a);
    } else {
      ValueAccounts(p, seen, a);
    }
  }

  /** Nothing is lost or doubled. */
  lemma {:induction false} NothingLost(args: seq<Argument>, n: nat)
    requires n <= |args|
    ensures Accounts(Prune(args, n), args[..n])
  {
    if n > 0 {
      var seen, a := args[..n - 1], args[n - 1];
      assert args[..n] == seen + [a];
      NothingLost(args, n - 1);
      AccountsStep(Prune(args, n - 1), seen, a);
    } else {
      assert args[..n] == [];
    }
  }

  /** The dropped values are exactly the unresolved arguments, in order. */
  lemma {:induction false} DropsAreTheUnresolved(args: seq<Argument>, n: nat)
    requires n <= |args|
    ensures Values(Prune(args, n).drops) == UnresolvedOnes(args, n)
  {
    if n > 0 {
      var p, a := Prune(args, n - 1), args[n - 1];
      DropsAreTheUnresolved(args, n - 1);
      PruneNext(args, n - 1);
      DropAdded(p.drops, Drop(a, if TopIsFlag(p.kept) then Some(p.kept[|p.kept| - 1]) else None));
    }
  }

  /** Positions rise, and every argument is resolved. */
  ghost predicate InOrder(kept: seq<Argument>) {
    && (forall j, k | 0 <= j < k < |kept| :: kept[j].position < kept[k].position)
    && (forall k | 0 <= k < |kept| :: Resolved(kept[k]))
  }

  ghost predicate From(kept: seq<Argument>, args: seq<Argument>, n: nat) {
    n <= |args| && forall k | 0 <= k < |kept| :: kept[k].position < n && kept[k] == args[kept[k].position]
  }

  ghost predicate Positioned(args: seq<Argument>) {
    forall k | 0 <= k < |args| :: args[k].position == k
  }

  lemma KeptStep(p: Pruned, args: seq<Argument>, n: nat)
    requires n < |args| && Positioned(args) && InOrder(p.kept) && From(p.kept, args, n)
    ensures InOrder(Take(p, args[n]).kept) && From(Take(p, args[n]).kept, args, n + 1)
  {
  }

  /** The output is a subsequence of the expanded arguments, all of them resolved. */
  lemma {:induction false} KeptInOrder(args: seq<Argument>, n: nat)
    requires n <= |args| && Positioned(args)
    ensures InOrder(Prune(args, n).kept) && From(Prune(args, n).kept, args, n)
  {
    if n > 0 {
      KeptInOrder(args, n - 1);
      KeptStep(Prune(args, n - 1), args, n - 1);
    }
  }

  /** A dropped flag was a resolved argument, the last of the output when its value was dropped. */
  ghost predicate DropJustified(args: seq<Argument>, d: Drop) {
    && d.value.position < |args| && d.value == args[d.value.position]
    && var kept := Prune(args, d.value.position).kept;
      if TopIsFlag(kept) then d.flag == Some(kept[|kept| - 1]) && Resolved(kept[|kept| - 1]) else d.flag == None
  }

  lemma {:induction false} DropsAreJustified(args: seq<Argument>, n: nat, d: Drop)
    requires n <= |args| && Positioned(args) && d in Prune(args, n).drops
    ensures DropJustified(args, d)
  {
    var p := Prune(args, n - 1);
    if d in p.drops {
      DropsAreJustified(args, n - 1, d);
    } else {
      KeptInOrder(args, n - 1);
      assert d.value == args[n - 1];
    }
  }

  /** An argument that is not kept never comes back. */
  lemma {:induction false} GoneStaysGone(args: seq<Argument>, i: nat, m: nat, n: nat)
    requires i < m <= n <= |args| && Positioned(args) && args[i] !in Prune(args, m).kept
    ensures args[i] !in Prune(args, n).kept
  {
    if m < n {
      GoneStaysGone(args, i, m, n - 1);
      assert args[i].position != args[n - 1].position;
    }
  }

  lemma FlagTakenBack(p: Pruned, flag: Argument, value: Argument)
    requires Resolved(flag) && IsFlag(flag.expanded) && !Resolved(value)
    ensures Take(Take(p, flag), value).kept == p.kept
  {
    assert (p.kept + [flag])[..|p.kept|] == p.kept;
  }

  lemma NotYetKept(args: seq<Argument>, i: nat, k: nat)
    requires i <= k < |args| && Positioned(args)
    ensures args[k] !in Prune(args, i).kept
  {
    KeptInOrder(args, i);
  }

  /** The purpose of the pass: no flag is left in front of a value that was dropped. */
  lemma FlagGoesWithItsValue(args: seq<Argument>, i: nat)
    requires i + 1 < |args| && Positioned(args)
    requires Resolved(args[i]) && IsFlag(args[i].expanded) && !Resolved(args[i + 1])
    ensures args[i] !in Prune(args, |args|).kept && args[i + 1] !in Prune(args, |args|).kept
  {
    assert Prune(args, i + 2).kept == Prune(args, i).kept by {
      FlagTakenBack(Prune(args, i), args[i], args[i + 1]);
      assert Prune(args, i + 2) == Take(Prune(args, i + 1), args[i + 1]);
    }
    NotYetKept(args, i, i);
    NotYetKept(args, i, i + 1);
    GoneStaysGone(args, i, i + 2, |args|);
    GoneStaysGone(args, i + 1, i + 2, |args|);
  }

  // ---------- with inert values ----------

  ghost predicate NoHole(tokens: seq<Token>) {
    forall j | 0 <= j < |tokens| :: !tokens[j].Hole?
  }

  lemma {:induction false} UnknownIsMissing(tokens: seq<Token>, table: Table, j: nat)
    requires j < |tokens| && tokens[j].Hole? && tokens[j].key !in table
    ensures Missing(tokens, table) != []
  {
    if j > 0 { UnknownIsMissing(tokens[1..], table, j - 1); }
  }

  lemma ResolvedIsFull(position: nat, raw: string, table: Table)
    requires AllInert(table) && Resolved(Examined(position, raw, table))
    ensures Missing(Tokens(raw), table) == [] && NoHole(Tokens(Examined(position, raw, table).expanded))
  {
    InertSettles(raw, table);
    ExpandedTokens(raw, table);
    DissolvedExpand(Tokens(raw), table);
    var tokens := Tokens(Examined(position, raw, table).expanded);
    forall j | 0 <= j < |tokens| ensures !tokens[j].Hole? {
      if tokens[j].Hole? { UnknownIsMissing(tokens, table, j); }
    }
  }

  /**
    With inert values, what is kept holds no closed placeholder at all, and the table knew all the
    keys it was written with.
    */
  lemma KeptAreFullyExpanded(raws: seq<string>, table: Table, n: nat, a: Argument)
    requires n <= |raws| && AllInert(table) && a in Prune(Examine(raws, table), n).kept
    ensures Missing(Tokens(a.raw), table) == [] && NoHole(Tokens(a.expanded))
  {
    KeptInOrder(Examine(raws, table), n);
    ResolvedIsFull(a.position, raws[a.position], table);
  }

  // ---------- what counts as a flag, and what the notes say ----------

  /** An argument that is dropped after `before` takes it along exactly when that is a dash with something behind. */
  lemma FlagsAreDashed(before: Argument, value: Argument)
    requires before.missing == [] && value.missing != []
    ensures |before.expanded| >= 2 && before.expanded[0] == '-' ==>
      Prune([before, value], 2) == Pruned([], [Drop(value, Some(before))])
    ensures |before.expanded| < 2 || before.expanded[0] != '-' ==>
      Prune([before, value], 2) == Pruned([before], [Drop(value, None)])
  {
    assert Prune([before, value], 1) == Pruned([before], []);
  }

  /** The note of a drop: the flag that went with it, the argument as written, and the keys nobody knew. */
  lemma NoteTells(d: Drop)
    ensures |d.value.missing| == 1 && d.flag == None ==>
      Note(d) == d.value.raw + " (unresolved ${" + d.value.missing[0] + "})"
    ensures |d.value.missing| == 2 && d.flag == None ==>
      Note(d) == d.value.raw + " (unresolved ${" + d.value.missing[0] + "}, ${" + d.value.missing[1] + "})"
    ensures d.flag.Some? ==> Note(d) == d.flag.value.expanded + " " + Note(d.(flag := None))
  {
    if |d.value.missing| == 2 {
      var a, b := d.value.missing[0], d.value.missing[1];
      assert d.value.missing[1..] == [b];
      assert Join(d.value.missing, "}, ${") == a + "}, ${" + b;
      TwoKeys(d.value.raw, a, b);
    }
  }

  lemma TwoKeys(raw: string, a: string, b: string)
    ensures raw + " (unresolved ${" + (a + "}, ${" + b) + "})" == raw + " (unresolved ${" + a + "}, ${" + b + "})"
  {
  }

  lemma {:induction false} DecidedByExpanded(args: seq<Argument>, n: nat)
    requires n <= |args|
    ensures forall a | a in Prune(args, n).kept :: a in args && a.missing == []
    ensures forall d | d in Prune(args, n).drops :: d.value in args && d.value.missing != []
  {
    if n > 0 { DecidedByExpanded(args, n - 1); }
  }

  /**
    For every table: what is kept names no unknown key once it is expanded, values included, and whatever
    is dropped for itself does. A value that brings in an unknown placeholder takes its argument with it.
    */
  lemma ExpandedTextDecides(raws: seq<string>, table: Table)
    ensures var args := Examine(raws, table);
      && (forall a | a in Prune(args, |args|).kept :: Missing(Tokens(Expand(Tokens(a.raw), table)), table) == [])
      && (forall d | d in Prune(args, |args|).drops :: Missing(Tokens(Expand(Tokens(d.value.raw), table)), table) != [])
  {
    var args := Examine(raws, table);
    DecidedByExpanded(args, |args|);
    forall a | a in args ensures a.missing == Missing(Tokens(Expand(Tokens(a.raw), table)), table) {
      var k :| 0 <= k < |args| && args[k] == a;
      ExaminedAt(raws, table, k);
    }
  }
}
