/**
 Meaning of Structured Text programs and the effect of the optimizer on it. A program runs
 line by line on a state of any type; an IF block without ELSE runs its body when its header's
 condition holds. Grouping keeps the final state when what moves may move.
 */
module StMeaning {
  import opened StOptimizer
  import opened StGrouping

  /** One plain line, the condition of a header line, and a whole block that has an ELSE part. */
  datatype Meaning<!S(!new)> = Meaning(
    step: (string, S) -> S,
    cond: (string, S) -> bool,
    alt: (seq<string>, S) -> S)

  predicate IsElse(line: string) {
    "ELSE" <= Trimmed(line) || "ELSIF" <= Trimmed(line)
  }

  /** No ELSE or ELSIF belongs to the block itself. */
  predicate ElseFree(body: seq<string>, depth: nat)
    requires depth >= 1
  {
    body == [] ||
      (!(depth == 1 && IsElse(body[0]))
       && (Depth(body[0], depth) >= 1 ==> ElseFree(body[1..], Depth(body[0], depth))))
  }

  function Exec<S(!new)>(m: Meaning<S>, lines: seq<string>, s: S): S
    decreases |lines|, 0
  {
    if lines == [] then s
    else if IsIf(lines[0]) != Yes then Exec(m, lines[1..], m.step(lines[0], s))
    else
      var scan := ScanBlock(lines[1..], 1);
      if scan.Threw? then s
      else Exec(m, scan.rest, RunIf(m, lines[0], scan.body, scan.end, s))
  }

  function RunIf<S(!new)>(m: Meaning<S>, header: string, body: seq<string>, end: string, s: S): S
    decreases |body|, 1
  {
    if !ElseFree(body, 1) then m.alt([header] + body + [end], s)
    else if m.cond(header, s) then Exec(m, body, s)
    else s
  }

  function RunItem<S(!new)>(m: Meaning<S>, x: Item, s: S): S {
    if x.Plain? then m.step(x.line, s) else RunIf(m, x.header, x.body, x.end, s)
  }

  function Run<S(!new)>(m: Meaning<S>, items: seq<Item>, s: S): S
    decreases |items|
  {
    if items == [] then s else Run(m, items[1..], RunItem(m, items[0], s))
  }

  // ---------- what may be merged ----------

  ghost predicate CondKept<S(!new)>(m: Meaning<S>, h: string, x: Item) {
    forall s :: m.cond(h, RunItem(m, x, s)) == m.cond(h, s)
  }

  ghost predicate Commutes<S(!new)>(m: Meaning<S>, body: seq<string>, x: Item) {
    forall s :: Exec(m, body, RunItem(m, x, s)) == RunItem(m, x, Exec(m, body, s))
  }

  predicate AllElseFree(items: seq<Item>, h: string) {
    forall k :: 0 <= k < |items| && items[k].Heads(h) ==> ElseFree(items[k].body, 1)
  }

  /** The bodies of the later `h` blocks may move in front of `x`, or join it if it is one. */
  ghost predicate Passable<S(!new)>(m: Meaning<S>, x: Item, h: string, rest: seq<Item>) {
    h in Headers(rest) ==>
      && CondKept(m, h, x)
      && AllElseFree([x] + rest, h)
      && (!x.Heads(h) ==> forall y :: y in rest && y.Heads(h) ==> Commutes(m, y.body, x))
  }

  ghost predicate Extractable<S(!new)>(m: Meaning<S>, items: seq<Item>, h: string) {
    items == [] || (Passable(m, items[0], h, items[1..]) && Extractable(m, items[1..], h))
  }

  /** From every block on, the later blocks with its header can be merged into it. */
  ghost predicate Mergeable<S(!new)>(m: Meaning<S>, items: seq<Item>) {
    items == [] ||
      (Mergeable(m, items[1..]) && (items[0].Block? ==> Extractable(m, items, items[0].header)))
  }

  // ---------- meaning of text and of items ----------

  lemma {:induction false} ExecIsRun<S(!new)>(m: Meaning<S>, items: seq<Item>, s: S)
    requires AllValid(items)
    ensures Exec(m, Unparse(items), s) == Run(m, items, s)
    decreases |items|
  {
    if items != [] {
      var x, rest := items[0], items[1..];
      ExecIsRun(m, rest, RunItem(m, x, s));
      HeadOfText(items);
      if x.Plain? {
        assert Unparse(items)[1..] == Unparse(rest);
      } else {
        ScanBalanced(x.body, 1, x.end, Unparse(rest));
      }
      hide Unparse, Item.Lines, Balanced, ScanBlock, RunIf;
    }
  }

  lemma {:induction false} ExecConcat<S(!new)>(m: Meaning<S>, a: seq<string>, b: seq<string>, s: S)
    requires Balanced(a, 1)
    ensures Exec(m, a + b, s) == Exec(m, b, Exec(m, a, s))
    decreases |a|
  {
    if a == [] {
      assert a + b == b;
    } else {
      assert (a + b)[1..] == a[1..] + b;
      if IsIf(a[0]) != Yes {
        ExecConcat(m, a[1..], b, m.step(a[0], s));
      } else {
        ScanInside(a[1..], 1, 1);
        ScanExtends(a[1..], 1, b);
        var scan := ScanBlock(a[1..], 1);
        ExecConcat(m, scan.rest, b, RunIf(m, a[0], scan.body, scan.end, s));
      }
    }
  }

  lemma {:induction false} ElseFreeConcat(a: seq<string>, depth: nat, b: seq<string>)
    requires depth >= 1 && Balanced(a, depth)
    ensures ElseFree(a + b, depth) == (ElseFree(a, depth) && ElseFree(b, 1))
  {
    if a == [] {
      assert a + b == b;
    } else {
      assert (a + b)[1..] == a[1..] + b;
      ElseFreeConcat(a[1..], Depth(a[0], depth), b);
    }
  }

  lemma {:induction false} ElseFreeBodies(items: seq<Item>, h: string)
    requires AllValid(items) && AllElseFree(items, h)
    ensures ElseFree(Bodies(items, h), 1)
  {
    if items != [] {
      ElseFreeBodies(items[1..], h);
      if items[0].Heads(h) {
        ElseFreeConcat(items[0].body, 1, Bodies(items[1..], h));
      } else {
        assert [] + Bodies(items[1..], h) == Bodies(items[1..], h);
      }
    }
  }

  /**
   Two blocks with the same header are one block exactly when the first, if it runs, leaves the
   condition true or a state that the second does not change.
   */
  lemma JoinIff<S(!new)>(m: Meaning<S>, h: string, a: seq<string>, b: seq<string>, end: string, s: S)
    requires Balanced(a, 1) && ElseFree(a, 1) && ElseFree(b, 1)
    ensures RunIf(m, h, a + b, end, s) == RunIf(m, h, b, end, RunIf(m, h, a, end, s)) <==>
      (m.cond(h, s) ==> m.cond(h, Exec(m, a, s)) || Exec(m, b, Exec(m, a, s)) == Exec(m, a, s))
  {
    ElseFreeConcat(a, 1, b);
    ExecConcat(m, a, b, s);
  }

  /** In particular when the first keeps the condition. */
  lemma JoinBlocks<S(!new)>(m: Meaning<S>, h: string, a: seq<string>, b: seq<string>, end: string, s: S)
    requires Balanced(a, 1) && ElseFree(a, 1) && ElseFree(b, 1)
    requires m.cond(h, RunIf(m, h, a, end, s)) == m.cond(h, s)
    ensures RunIf(m, h, a + b, end, s) == RunIf(m, h, b, end, RunIf(m, h, a, end, s))
  {
    JoinIff(m, h, a, b, end, s);
  }

  // ---------- moving bodies forward ----------

  lemma {:induction false} BodiesCommute<S(!new)>(m: Meaning<S>, items: seq<Item>, h: string, x: Item, s: S)
    requires AllValid(items)
    requires forall y :: y in items && y.Heads(h) ==> Commutes(m, y.body, x)
    ensures Exec(m, Bodies(items, h), RunItem(m, x, s)) == RunItem(m, x, Exec(m, Bodies(items, h), s))
    decreases |items|
  {
    if items != [] {
      var y, rest := items[0], items[1..];
      if y.Heads(h) {
        ExecConcat(m, y.body, Bodies(rest, h), s);
        ExecConcat(m, y.body, Bodies(rest, h), RunItem(m, x, s));
        BodiesCommute(m, rest, h, x, Exec(m, y.body, s));
        assert Commutes(m, y.body, x);
      } else {
        assert [] + Bodies(rest, h) == Bodies(rest, h);
        BodiesCommute(m, rest, h, x, s);
      }
    }
  }

  /** The merged block and a statement it passes may run in either order. */
  lemma PassOne<S(!new)>(m: Meaning<S>, x: Item, h: string, rest: seq<Item>, end: string, s: S)
    requires AllValid(rest) && Passable(m, x, h, rest) && !x.Heads(h) && AllElseFree(rest, h)
    ensures var b := Bodies(rest, h);
      RunIf(m, h, b, end, RunItem(m, x, s)) == RunItem(m, x, RunIf(m, h, b, end, s))
  {
    ElseFreeBodies(rest, h);
    if h in Headers(rest) {
      BodiesCommute(m, rest, h, x, s);
      assert m.cond(h, RunItem(m, x, s)) == m.cond(h, s);
    } else {
      NoBodies(rest, h);
    }
  }

  lemma {:induction false} Extract<S(!new)>(m: Meaning<S>, items: seq<Item>, h: string, end: string, s: S)
    requires AllValid(items) && Extractable(m, items, h) && AllElseFree(items, h)
    ensures Run(m, items, s) == Run(m, Without(items, [h]), RunIf(m, h, Bodies(items, h), end, s))
    decreases |items|
  {
    if items != [] {
      var x, rest := items[0], items[1..];
      forall k | 0 <= k < |rest| && rest[k].Heads(h) ensures ElseFree(rest[k].body, 1) {
        assert rest[k] == items[k + 1];
      }
      Extract(m, rest, h, end, RunItem(m, x, s));
      if x.Heads(h) {
        ElseFreeBodies(rest, h);
        if h in Headers(rest) {
          assert m.cond(h, RunItem(m, x, s)) == m.cond(h, s);
          JoinBlocks(m, h, x.body, Bodies(rest, h), end, s);
        } else {
          NoBodies(rest, h);
          assert x.body + [] == x.body;
        }
      } else {
        PassOne(m, x, h, rest, end, s);
        RunCons(m, x, Without(rest, [h]), RunIf(m, h, Bodies(rest, h), end, s));
        assert [] + Bodies(rest, h) == Bodies(rest, h);
      }
    }
  }

  lemma RunCons<S(!new)>(m: Meaning<S>, x: Item, items: seq<Item>, s: S)
    ensures Run(m, [x] + items, s) == Run(m, items, RunItem(m, x, s))
  {
    assert ([x] + items)[1..] == items;
  }

  lemma {:induction false} ExtractableWithout<S(!new)>(m: Meaning<S>, items: seq<Item>, headers: seq<string>, g: string)
    requires Extractable(m, items, g)
    ensures Extractable(m, Without(items, headers), g)
  {
    if items != [] {
      var x, rest := items[0], items[1..];
      ExtractableWithout(m, rest, headers, g);
      var left := Without(rest, headers);
      WithoutHeaders(rest, headers, g);
      if g in Headers(left) {
        assert Passable(m, x, g, rest);
        forall k | 0 <= k < |[x] + left| && ([x] + left)[k].Heads(g) ensures ElseFree(([x] + left)[k].body, 1) {
          assert ([x] + left)[k] in [x] + rest;
        }
      }
      assert Passable(m, x, g, left);
      assert ([x] + left)[1..] == left;
    }
  }

  lemma {:induction false} MergeableWithout<S(!new)>(m: Meaning<S>, items: seq<Item>, headers: seq<string>)
    requires Mergeable(m, items)
    ensures Mergeable(m, Without(items, headers))
  {
    if items != [] {
      var x, rest := items[0], items[1..];
      MergeableWithout(m, rest, headers);
      if x.Block? { ExtractableWithout(m, items, headers, x.header); }
      assert ([x] + Without(rest, headers))[1..] == Without(rest, headers);
    }
  }

  /** Grouping keeps the final state from every initial state. */
  lemma {:induction false} GroupKeepsMeaning<S(!new)>(m: Meaning<S>, items: seq<Item>, s: S)
    requires AllValid(items) && Mergeable(m, items)
    ensures Run(m, Group(items), s) == Run(m, items, s)
    decreases |items|
  {
    if items != [] {
      var x, rest := items[0], items[1..];
      if x.Plain? {
        GroupKeepsMeaning(m, rest, RunItem(m, x, s));
        RunCons(m, x, Group(rest), s);
      } else {
        var h, b, left := x.header, Bodies(rest, x.header), Without(rest, [x.header]);
        var merged := Block(h, x.body + b, x.end);
        RunCons(m, merged, Group(left), s);
        WithoutValid(rest, [h]);
        MergeableWithout(m, rest, [h]);
        GroupKeepsMeaning(m, left, RunItem(m, merged, s));
        if h in Headers(rest) {
          assert Passable(m, x, h, rest);
          MergedIsFirstThenRest(m, x, rest, s);
        } else {
          NoBodies(rest, h);
          assert x.body + [] == x.body;
        }
      }
    }
  }

  lemma MergedIsFirstThenRest<S(!new)>(m: Meaning<S>, x: Item, rest: seq<Item>, s: S)
    requires x.Valid() && x.Block? && AllValid(rest) && x.header in Headers(rest)
    requires Passable(m, x, x.header, rest) && Extractable(m, rest, x.header)
    ensures Run(m, Without(rest, [x.header]), RunIf(m, x.header, x.body + Bodies(rest, x.header), x.end, s)) ==
            Run(m, rest, RunItem(m, x, s))
  {
    var all := [x] + rest;
    assert ElseFree(all[0].body, 1);
    forall k | 0 <= k < |rest| && rest[k].Heads(x.header) ensures ElseFree(rest[k].body, 1) {
      assert all[k + 1] == rest[k];
    }
    ElseFreeBodies(rest, x.header);
    Extract(m, rest, x.header, x.end, RunItem(m, x, s));
    assert m.cond(x.header, RunItem(m, x, s)) == m.cond(x.header, s);
    JoinBlocks(m, x.header, x.body, Bodies(rest, x.header), x.end, s);
  }

  /** The optimized program computes the same final state as the original. */
  lemma OptimizerKeepsMeaning<S(!new)>(m: Meaning<S>, lines: seq<string>, s: S)
    requires WellNested(lines) && Tidy(Parse(lines), []) && Mergeable(m, Parse(lines))
    ensures Rewrite(lines, []).Program?
    ensures Exec(m, Rewrite(lines, []).lines, s) == Exec(m, lines, s)
  {
    var items := Parse(lines);
    ParseIsExact(lines);
    OptimizerGroupsIffTidy(lines);
    GroupKeepsMeaning(m, items, s);
    GroupValid(items);
    ExecIsRun(m, items, s);
    ExecIsRun(m, Group(items), s);
  }

  // ---------- why the conditions are there ----------

  /**
   Two blocks with one header and no ELSE, merged: the final state from `s` is kept exactly when the
   first body, if it runs, leaves the condition true or a state that the second does not change.
   */
  lemma PairIsKeptIff<S(!new)>(m: Meaning<S>, x: Item, y: Item, s: S)
    requires x.Valid() && y.Valid() && x.Block? && y.Heads(x.header) && ElseFree(x.body, 1) && ElseFree(y.body, 1)
    ensures Run(m, Group([x, y]), s) == Run(m, [x, y], s) <==>
      (m.cond(x.header, s) ==>
         m.cond(x.header, Exec(m, x.body, s)) || Exec(m, y.body, Exec(m, x.body, s)) == Exec(m, x.body, s))
  {
    var h, merged := x.header, Block(x.header, x.body + y.body, x.end);
    PairIsMerged(x, y);
    JoinIff(m, h, x.body, y.body, x.end, s);
    RunCons(m, merged, [], s);
    RunCons(m, x, [y], s);
    RunCons(m, y, [], RunItem(m, x, s));
    assert [merged] + [] == [merged] && [x] + [y] == [x, y] && [y] + [] == [y];
    hide Exec, Group, Balanced;
  }

  lemma PairIsMerged(x: Item, y: Item)
    requires x.Block? && y.Heads(x.header)
    ensures Group([x, y]) == [Block(x.header, x.body + y.body, x.end)]
    ensures Tidy([x, y], [])
  {
    assert [x, y][1..] == [y] && [y][1..] == [];
    assert Bodies([y], x.header) == y.body + [] == y.body && Without([y], [x.header]) == [];
    assert Strays([y], x.header) == [] + Strays([], x.header) == [];
    assert Tidy([y], [] + [x.header]);
  }

  /** Every line counts up and every condition asks for zero. */
  const COUNT_FROM_ZERO: Meaning<int> := Meaning((_, s) => s + 1, (_, s) => s == 0, (_, s) => s)

  /** A body that ends its own condition: the merged program ends in another state. */
  lemma OwnConditionMatters(h: string, line: string, end: string)
    requires IsIf(h) == Yes && !Throwing(line) && Depth(line, 1) == 1 && !IsElse(line) && IsEndIf(end) == Yes
    ensures var x := Block(h, [line], end);
      && AllValid([x, x]) && Tidy([x, x], [])
      && Run(COUNT_FROM_ZERO, Group([x, x]), 0) != Run(COUNT_FROM_ZERO, [x, x], 0)
  {
    var x := Block(h, [line], end);
    assert [line][1..] == [];
    assert x.Valid() && ElseFree([line], 1);
    PairIsMerged(x, x);
    PairIsKeptIff(COUNT_FROM_ZERO, x, x, 0);
    assert Exec(COUNT_FROM_ZERO, [line], 0) == Exec(COUNT_FROM_ZERO, [], 1) == 1;
    assert Exec(COUNT_FROM_ZERO, [line], 1) == Exec(COUNT_FROM_ZERO, [], 2) == 2;
  }
}
