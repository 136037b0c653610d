/**
 What the Structured Text optimizer is meant to do, on programs parsed into plain lines and
 IF blocks: keep the first block of every header and append to it the bodies of the later
 blocks with that header. The optimizer's text-level rewriting is shown to do exactly this
 unless a merged header is repeated inside a later block with another header.
 */
module StGrouping {
  import opened StOptimizer

  datatype Item = Plain(line: string) | Block(header: string, body: seq<string>, end: string)
  {
    function Lines(): seq<string> {
      if Plain? then [line] else [header] + body + [end]
    }

    predicate Valid() {
      if Plain? then IsIf(line) == No
      else IsIf(header) == Yes && Balanced(body, 1) && IsEndIf(end) == Yes
    }

    predicate Heads(h: string) {
      Block? && header == h
    }

    /** The lines a block contributes to the multiset of statements. */
    function Contents(): seq<string> {
      if Plain? then [line] else body
    }
  }

  /** Every IF opened in `body` is closed in it, and no line test throws. */
  predicate Balanced(body: seq<string>, depth: nat)
    requires depth >= 1
  {
    if body == [] then depth == 1
    else
      && !Throwing(body[0])
      && Depth(body[0], depth) >= 1
      && Balanced(body[1..], Depth(body[0], depth))
  }

  predicate AllValid(items: seq<Item>) {
    forall k :: 0 <= k < |items| ==> items[k].Valid()
  }

  function Unparse(items: seq<Item>): seq<string> {
    if items == [] then [] else items[0].Lines() + Unparse(items[1..])
  }

  // ---------- the intended result ----------

  function Bodies(items: seq<Item>, h: string): seq<string> {
    if items == [] then []
    else (if items[0].Heads(h) then items[0].body else []) + Bodies(items[1..], h)
  }

  function Without(items: seq<Item>, headers: seq<string>): (left: seq<Item>)
    ensures |left| <= |items|
    ensures forall x :: x in left ==> x in items
  {
    if items == [] then []
    else if items[0].Block? && items[0].header in headers then Without(items[1..], headers)
    else [items[0]] + Without(items[1..], headers)
  }

  function Group(items: seq<Item>): seq<Item>
    decreases |items|
  {
    if items == [] then []
    else
      match items[0]
      case Plain(_) => [items[0]] + Group(items[1..])
      case Block(h, body, end) =>
        [Block(h, body + Bodies(items[1..], h), end)] + Group(Without(items[1..], [h]))
  }

  // ---------- when the optimizer does it ----------

  /** What the text-level search for `h` picks up inside blocks with another header. */
  function Strays(items: seq<Item>, h: string): seq<string> {
    if items == [] then []
    else
      var x := items[0];
      var inside := if x.Block? && x.header != h then Gather(x.body, h) else Program([]);
      (if inside.Program? then inside.lines else []) + Strays(items[1..], h)
  }

  /** No header has a non-empty block nested verbatim inside a later block with another header. */
  predicate Tidy(items: seq<Item>, seen: seq<string>) {
    items == [] ||
    match items[0]
    case Plain(_) => Tidy(items[1..], seen)
    case Block(h, _, _) =>
      if h in seen then Tidy(items[1..], seen)
      else Strays(items[1..], h) == [] && Tidy(items[1..], seen + [h])
  }

  /** What the search for `h` picks up in all. */
  function Pulled(items: seq<Item>, h: string): seq<string> {
    if items == [] then []
    else
      var x := items[0];
      var inside := if x.Plain? then Program([]) else if x.header == h then Program(x.body) else Gather(x.body, h);
      (if inside.Program? then inside.lines else []) + Pulled(items[1..], h)
  }

  lemma {:induction false} PulledSplits(items: seq<Item>, h: string)
    ensures |Pulled(items, h)| == |Bodies(items, h)| + |Strays(items, h)|
    ensures Strays(items, h) == [] ==> Pulled(items, h) == Bodies(items, h)
  {
    if items != [] { PulledSplits(items[1..], h); }
  }

  // ---------- parsing ----------

  /** Every IF has its END_IF, and no line test throws. */
  predicate WellNested(lines: seq<string>)
    decreases |lines|
  {
    lines == [] ||
    match IsIf(lines[0])
    case Throws => false
    case No => WellNested(lines[1..])
    case Yes =>
      var scan := ScanBlock(lines[1..], 1);
      scan.Scanned? && IsEndIf(scan.end) == Yes && WellNested(scan.rest)
  }

  function Parse(lines: seq<string>): seq<Item>
    requires WellNested(lines)
    decreases |lines|
  {
    if lines == [] then []
    else if IsIf(lines[0]) == No then [Plain(lines[0])] + Parse(lines[1..])
    else
      var scan := ScanBlock(lines[1..], 1);
      [Block(lines[0], scan.body, scan.end)] + Parse(scan.rest)
  }

  lemma {:induction false} ScanParts(lines: seq<string>, depth: nat)
    requires depth >= 1 && ScanBlock(lines, depth).Scanned? && IsEndIf(ScanBlock(lines, depth).end) == Yes
    ensures lines == ScanBlock(lines, depth).body + [ScanBlock(lines, depth).end] + ScanBlock(lines, depth).rest
    ensures Balanced(ScanBlock(lines, depth).body, depth)
  {
    hide IsIf, IsEndIf;
    if lines == [] {
      EmptyIsNoEnd();
    } else if Depth(lines[0], depth) > 0 {
      var d := Depth(lines[0], depth);
      ScanParts(lines[1..], d);
      ScanCons(lines, depth);
      Regrouped(lines, ScanBlock(lines[1..], d));
      assert ScanBlock(lines, depth).body[1..] == ScanBlock(lines[1..], d).body;
    } else {
      assert lines == [] + [lines[0]] + lines[1..];
    }
  }

  lemma EmptyIsNoEnd()
    ensures IsEndIf("") == No
  {
  }

  lemma ScanCons(lines: seq<string>, depth: nat)
    requires depth >= 1 && lines != [] && !Throwing(lines[0]) && Depth(lines[0], depth) > 0
    requires ScanBlock(lines[1..], Depth(lines[0], depth)).Scanned?
    ensures var inner := ScanBlock(lines[1..], Depth(lines[0], depth));
      ScanBlock(lines, depth) == inner.(body := [lines[0]] + inner.body)
  {
  }

  lemma Regrouped(lines: seq<string>, inner: Scan)
    requires lines != [] && inner.Scanned? && lines[1..] == inner.body + [inner.end] + inner.rest
    ensures lines == ([lines[0]] + inner.body) + [inner.end] + inner.rest
  {
    assert lines == [lines[0]] + lines[1..];
  }

  /** Every well-nested program is the text of valid items. */
  lemma {:induction false} ParseIsExact(lines: seq<string>)
    requires WellNested(lines)
    ensures AllValid(Parse(lines)) && Unparse(Parse(lines)) == lines
    decreases |lines|
  {
    if lines != [] {
      if IsIf(lines[0]) == No {
        ParseIsExact(lines[1..]);
        UnparseCons(Plain(lines[0]), Parse(lines[1..]));
        hide Unparse, Item.Valid;
        assert lines == [lines[0]] + lines[1..];
      } else {
        var scan := ScanBlock(lines[1..], 1);
        ParseIsExact(scan.rest);
        ParsedBlock(lines);
        UnparseCons(Block(lines[0], scan.body, scan.end), Parse(scan.rest));
        hide Unparse, Item.Valid, ScanBlock, IsIf, IsEndIf, Item.Lines;
      }
    }
  }

  lemma ParsedBlock(lines: seq<string>)
    requires lines != [] && IsIf(lines[0]) == Yes
    requires ScanBlock(lines[1..], 1).Scanned? && IsEndIf(ScanBlock(lines[1..], 1).end) == Yes
    ensures var scan := ScanBlock(lines[1..], 1); var x := Block(lines[0], scan.body, scan.end);
      x.Valid() && x.Lines() + scan.rest == lines
  {
    ScanParts(lines[1..], 1);
    hide ScanBlock, Balanced, IsIf, IsEndIf;
    Regrouped(lines, ScanBlock(lines[1..], 1));
  }

  // ---------- scanning balanced text ----------

  lemma {:induction false} BalancedConcat(a: seq<string>, depth: nat, b: seq<string>)
    requires depth >= 1 && Balanced(a, depth) && Balanced(b, 1)
    ensures Balanced(a + b, depth)
  {
    if a == [] {
      assert a + b == b;
    } else {
      assert (a + b)[1..] == a[1..] + b;
      BalancedConcat(a[1..], Depth(a[0], depth), b);
    }
  }

  lemma {:induction false} ScanBalanced(body: seq<string>, depth: nat, end: string, rest: seq<string>)
    requires depth >= 1 && Balanced(body, depth) && IsEndIf(end) == Yes
    ensures ScanBlock(body + [end] + rest, depth) == Scanned(body, end, rest)
  {
    var lines := body + [end] + rest;
    EndIfIsNotIf(end);
    if body == [] {
      assert lines == [end] + rest;
    } else {
      assert lines[1..] == body[1..] + [end] + rest;
      ScanBalanced(body[1..], Depth(body[0], depth), end, rest);
    }
  }

  /** A block opened inside balanced text closes inside it. */
  lemma {:induction false} ScanInside(l: seq<string>, c: nat, k: nat)
    requires c >= 1 && k >= 1 && Balanced(l, c + k)
    ensures ScanBlock(l, c).Scanned? && IsEndIf(ScanBlock(l, c).end) == Yes
    ensures Balanced(ScanBlock(l, c).body, c) && Balanced(ScanBlock(l, c).rest, k)
  {
    hide IsIf, IsEndIf;
    if Depth(l[0], c) > 0 {
      ScanInside(l[1..], Depth(l[0], c), k);
      assert ScanBlock(l, c).body[1..] == ScanBlock(l[1..], Depth(l[0], c)).body;
    }
  }

  /** A scan that found its END_IF does not look at what follows. */
  lemma {:induction false} ScanExtends(l: seq<string>, c: nat, v: seq<string>)
    requires c >= 1 && ScanBlock(l, c).Scanned? && IsEndIf(ScanBlock(l, c).end) == Yes
    ensures ScanBlock(l + v, c) == ScanBlock(l, c).(rest := ScanBlock(l, c).rest + v)
  {
    if l != [] {
      assert (l + v)[1..] == l[1..] + v;
      if Depth(l[0], c) > 0 { ScanExtends(l[1..], Depth(l[0], c), v); }
    }
  }

  lemma {:induction false} GatherConcat(l: seq<string>, depth: nat, h: string, v: seq<string>)
    requires depth >= 1 && Balanced(l, depth) && IsIf(h) == Yes
    ensures Gather(l, h).Program?
    ensures Gather(l + v, h) == Gather(v, h).Behind(Gather(l, h).lines)
    decreases |l|
  {
    var o := Gather(v, h);
    if l == [] {
      assert l + v == v;
      if o.Program? { assert [] + o.lines == o.lines; }
    } else {
      assert (l + v)[1..] == l[1..] + v;
      if l[0] != h {
        GatherConcat(l[1..], Depth(l[0], depth), h, v);
      } else {
        ScanInside(l[1..], 1, depth);
        ScanExtends(l[1..], 1, v);
        var scan := ScanBlock(l[1..], 1);
        GatherConcat(scan.rest, depth, h, v);
        BehindTwice(o, scan.body, Gather(scan.rest, h).lines);
      }
    }
  }

  lemma GatherBlock(x: Item, h: string, rest: seq<string>)
    requires x.Valid() && x.Block? && IsIf(h) == Yes
    ensures x.header == h ==> Gather(x.Lines() + rest, h) == Gather(rest, h).Behind(x.body)
    ensures x.header != h ==>
      Gather(x.body, h).Program? && Gather(x.Lines() + rest, h) == Gather(rest, h).Behind(Gather(x.body, h).lines)
  {
    var lines := x.Lines() + rest;
    assert lines[0] == x.header && lines[1..] == x.body + [x.end] + rest;
    if x.header == h {
      ScanBalanced(x.body, 1, x.end, rest);
    } else {
      EndIfIsNotIf(x.end);
      assert x.body + [x.end] + rest == x.body + ([x.end] + rest);
      assert ([x.end] + rest)[1..] == rest;
      GatherConcat(x.body, 1, h, [x.end] + rest);
    }
  }

  lemma {:induction false} GatherItems(items: seq<Item>, h: string)
    requires AllValid(items) && IsIf(h) == Yes
    ensures Gather(Unparse(items), h) == Program(Pulled(items, h))
  {
    if items != [] {
      GatherItems(items[1..], h);
      if items[0].Plain? {
        assert Unparse(items)[1..] == Unparse(items[1..]);
      } else {
        GatherBlock(items[0], h, Unparse(items[1..]));
      }
    }
  }

  // ---------- facts about Without, Bodies and Group ----------

  lemma {:induction false} WithoutTwice(items: seq<Item>, a: seq<string>, b: seq<string>)
    ensures Without(Without(items, a), b) == Without(items, a + b)
  {
    if items != [] { WithoutTwice(items[1..], a, b); }
  }

  lemma {:induction false} BodiesWithout(items: seq<Item>, headers: seq<string>, h: string)
    requires h !in headers
    ensures Bodies(Without(items, headers), h) == Bodies(items, h)
  {
    if items != [] {
      BodiesWithout(items[1..], headers, h);
    }
  }

  lemma {:induction false} WithoutNone(items: seq<Item>)
    ensures Without(items, []) == items
  {
    if items != [] { WithoutNone(items[1..]); }
  }

  lemma WithoutValid(items: seq<Item>, headers: seq<string>)
    requires AllValid(items)
    ensures AllValid(Without(items, headers))
  {
    forall k | 0 <= k < |Without(items, headers)| ensures Without(items, headers)[k].Valid() {
      assert Without(items, headers)[k] in items;
    }
  }

  // ---------- the text level against the intended result ----------

  lemma RewriteBlock(items: seq<Item>, seen: seq<string>)
    requires AllValid(items) && items != [] && items[0].Block?
    ensures var x := items[0]; var rest := items[1..];
      && Rewrite(Unparse(items), seen) ==
        if x.header in seen then Rewrite(Unparse(rest), seen)
        else Rewrite(Unparse(rest), seen + [x.header]).Behind([x.header] + x.body + Pulled(rest, x.header) + [x.end])
  {
    var x, rest := items[0], items[1..];
    HeadOfText(items);
    ScanBalanced(x.body, 1, x.end, Unparse(rest));
    GatherItems(rest, x.header);
    hide Unparse, Item.Lines, Balanced, Pulled, ScanBlock, Gather;
  }

  lemma HeadOfText(items: seq<Item>)
    requires items != []
    ensures items[0].Plain? ==> Unparse(items) == [items[0].line] + Unparse(items[1..])
    ensures items[0].Block? ==> Unparse(items) != [] && Unparse(items)[0] == items[0].header
    ensures items[0].Block? ==> Unparse(items)[1..] == items[0].body + [items[0].end] + Unparse(items[1..])
  {
    var x, rest := items[0], Unparse(items[1..]);
    assert Unparse(items) == x.Lines() + rest;
    hide Unparse;
    if x.Block? { HeadOfBlock(x.header, x.body, x.end, rest); }
  }

  lemma HeadOfBlock(header: string, body: seq<string>, end: string, rest: seq<string>)
    ensures var lines := ([header] + body + [end]) + rest; lines[0] == header && lines[1..] == body + [end] + rest
  {
  }

  lemma GroupBlock(items: seq<Item>, seen: seq<string>)
    requires items != [] && items[0].Block?
    ensures var x := items[0]; var rest := items[1..];
      Unparse(Group(Without(items, seen))) ==
        if x.header in seen then Unparse(Group(Without(rest, seen)))
        else [x.header] + x.body + Bodies(rest, x.header) + [x.end] + Unparse(Group(Without(rest, seen + [x.header])))
  {
    var x, rest := items[0], items[1..];
    if x.header !in seen {
      var left := Without(rest, seen);
      assert Without(items, seen) == [x] + left;
      WithoutTwice(rest, seen, [x.header]);
      BodiesWithout(rest, seen, x.header);
      GroupCons(x, left);
    }
  }

  lemma GroupCons(x: Item, left: seq<Item>)
    requires x.Block?
    ensures Unparse(Group([x] + left)) ==
      [x.header] + x.body + Bodies(left, x.header) + [x.end] + Unparse(Group(Without(left, [x.header])))
  {
    assert ([x] + left)[1..] == left;
    var merged := Block(x.header, x.body + Bodies(left, x.header), x.end);
    UnparseCons(merged, Group(Without(left, [x.header])));
    LinesOfMerged(x, Bodies(left, x.header));
  }

  lemma LinesOfMerged(x: Item, more: seq<string>)
    requires x.Block?
    ensures Block(x.header, x.body + more, x.end).Lines() == [x.header] + x.body + more + [x.end]
  {
  }

  lemma UnparseCons(x: Item, items: seq<Item>)
    ensures Unparse([x] + items) == x.Lines() + Unparse(items)
  {
    assert ([x] + items)[1..] == items;
  }

  /** The optimizer writes the intended program, or, when not tidy, more lines than that. */
  lemma {:induction false} RewriteIsGroup(items: seq<Item>, seen: seq<string>)
    requires AllValid(items)
    ensures var o := Rewrite(Unparse(items), seen); var wanted := Unparse(Group(Without(items, seen)));
      && o.Program?
      && |o.lines| >= |wanted|
      && (if Tidy(items, seen) then o.lines == wanted else |o.lines| > |wanted|)
  {
    if items != [] {
      var x, rest := items[0], items[1..];
      RewriteIsGroup(rest, seen);
      if x.Plain? {
        assert Unparse(items)[1..] == Unparse(rest);
        var left := Without(rest, seen);
        assert Without(items, seen) == [x] + left;
        assert Unparse(Group([x] + left)) == [x.line] + Unparse(Group(left));
      } else {
        RewriteBlock(items, seen);
        GroupBlock(items, seen);
        RewriteIsGroup(rest, seen + [x.header]);
        PulledSplits(rest, x.header);
      }
    }
  }

  /**
   On every well-nested program the optimizer groups identical headers exactly when the
   program is tidy.
   */
  lemma OptimizerGroupsIffTidy(lines: seq<string>)
    requires WellNested(lines)
    ensures Rewrite(lines, []).Program?
    ensures Rewrite(lines, []).lines == Unparse(Group(Parse(lines))) <==> Tidy(Parse(lines), [])
  {
    ParseIsExact(lines);
    GroupsIffTidy(Parse(lines));
    RewriteIsGroup(Parse(lines), []);
  }

  lemma GroupsIffTidy(items: seq<Item>)
    requires AllValid(items)
    ensures Rewrite(Unparse(items), []) == Program(Unparse(Group(items))) <==> Tidy(items, [])
  {
    RewriteIsGroup(items, []);
    WithoutNone(items);
  }

  predicate Unnested(items: seq<Item>) {
    forall i, j :: 0 <= i < |items| && 0 <= j < |items| ==> !Nests(items[i], items[j])
  }

  predicate Nests(x: Item, y: Item) {
    x.Block? && y.Block? && x.header != y.header && x.header in y.body
  }

  /** A program with no header inside a block of another header is tidy. */
  lemma {:induction false} UnnestedIsTidy(items: seq<Item>, seen: seq<string>)
    requires Unnested(items)
    ensures Tidy(items, seen)
  {
    if items != [] {
      var x, rest := items[0], items[1..];
      forall i, j | 0 <= i < |rest| && 0 <= j < |rest| ensures !Nests(rest[i], rest[j]) {
        assert rest[i] == items[i + 1] && rest[j] == items[j + 1];
      }
      UnnestedIsTidy(rest, seen);
      if x.Block? {
        UnnestedIsTidy(rest, seen + [x.header]);
        forall j | 0 <= j < |rest| ensures !Nests(x, rest[j]) {
          assert rest[j] == items[j + 1] && items[0] == x;
        }
        NoStrays(rest, x.header);
      }
    }
  }

  lemma {:induction false} NoStrays(items: seq<Item>, h: string)
    requires forall j :: 0 <= j < |items| && items[j].Block? && items[j].header != h ==> h !in items[j].body
    ensures Strays(items, h) == []
  {
    if items != [] {
      NoStrays(items[1..], h);
      if items[0].Block? && items[0].header != h { NothingGathered(items[0].body, h); }
    }
  }

  lemma {:induction false} NothingGathered(lines: seq<string>, h: string)
    requires h !in lines
    ensures Gather(lines, h) == Program([])
  {
    if lines != [] { NothingGathered(lines[1..], h); }
  }

  /** The smallest untidy programs: the nested body comes out twice. */
  lemma NestedBodyIsDuplicated(a: string, b: string, p: seq<string>, q: seq<string>, end: string)
    requires IsIf(a) == Yes && IsIf(b) == Yes && a != b && IsEndIf(end) == Yes
    requires Balanced(p, 1) && Balanced(q, 1)
    ensures var items := [Block(a, p, end), Block(b, [a] + q + [end], end)];
      && AllValid(items)
      && Rewrite(Unparse(items), []) == Program(([a] + p + q + [end]) + ([b] + ([a] + q + [end]) + [end]))
      && (Tidy(items, []) <==> q == [])
  {
    var nested := [a] + q + [end];
    var x := Block(b, nested, end);
    var items := [Block(a, p, end), x];
    NestedBalanced(a, q, end);
    NestedStrays(a, q, x);
    NestedRewrite(items[0], x);
    NestedTidy(items[0], x);
  }

  lemma NestedRewrite(x: Item, y: Item)
    requires x.Valid() && y.Valid() && x.Block? && y.Block? && x.header != y.header
    ensures Rewrite(Unparse([x, y]), []) ==
      Program(([x.header] + x.body + Pulled([y], x.header) + [x.end]) + y.Lines())
  {
    assert [x, y][1..] == [y];
    RewriteBlock([x, y], []);
    RewriteLast(y, [] + [x.header]);
  }

  lemma NestedTidy(x: Item, y: Item)
    requires x.Block? && y.Block? && x.header != y.header
    ensures Tidy([x, y], []) <==> Strays([y], x.header) == []
  {
    assert [x, y][1..] == [y] && [y][1..] == [];
    assert Strays([], y.header) == [];
    assert Tidy([y], [] + [x.header]);
  }

  lemma RewriteLast(y: Item, seen: seq<string>)
    requires y.Valid() && y.Block? && y.header !in seen
    ensures Rewrite(Unparse([y]), seen) == Program(y.Lines())
  {
    RewriteBlock([y], seen);
    LinesAlone(y);
    assert [y][1..] == [];
    assert Rewrite(Unparse([]), seen + [y.header]) == Program([]);
    hide Item.Valid, Strays, Rewrite, Unparse;
  }

  lemma LinesAlone(y: Item)
    requires y.Block?
    ensures [y.header] + y.body + Pulled([], y.header) + [y.end] + [] == y.Lines()
  {
  }

  lemma NestedStrays(a: string, q: seq<string>, x: Item)
    requires IsIf(a) == Yes && Balanced(q, 1)
    requires x.Valid() && x.Block? && x.header != a && x.body == [a] + q + [x.end]
    ensures Pulled([x], a) == q && Strays([x], a) == q
  {
    GatherNested(a, q, x.end);
    hide Item.Valid, Balanced, IsIf, Gather;
    assert [x][1..] == [];
    assert q + [] == q;
  }

  lemma GatherNested(a: string, q: seq<string>, end: string)
    requires IsIf(a) == Yes && Balanced(q, 1) && IsEndIf(end) == Yes
    ensures Gather([a] + q + [end], a) == Program(q)
  {
    GatherBlock(Block(a, q, end), a, []);
    assert [a] + q + [end] + [] == [a] + q + [end];
    assert q + [] == q;
  }

  lemma NestedBalanced(a: string, q: seq<string>, end: string)
    requires IsIf(a) == Yes && IsEndIf(end) == Yes && Balanced(q, 1)
    ensures Balanced([a] + q + [end], 1)
  {
    EndIfIsNotIf(end);
    Deepen(q, 1, [end]);
    assert ([a] + q + [end])[1..] == q + [end];
    assert [end][1..] == [];
  }

  /** Text balanced at one depth brings any greater depth back to one more than it started with. */
  lemma {:induction false} Deepen(q: seq<string>, depth: nat, v: seq<string>)
    requires depth >= 1 && Balanced(q, depth) && Balanced(v, 2)
    ensures Balanced(q + v, depth + 1)
  {
    if q == [] {
      assert q + v == v;
    } else {
      assert (q + v)[1..] == q[1..] + v;
      Deepen(q[1..], Depth(q[0], depth), v);
    }
  }

  // ---------- what grouping keeps ----------

  function Headers(items: seq<Item>): seq<string> {
    if items == [] then []
    else (if items[0].Block? then [items[0].header] else []) + Headers(items[1..])
  }

  function PlainLines(items: seq<Item>): seq<string> {
    if items == [] then []
    else (if items[0].Plain? then [items[0].line] else []) + PlainLines(items[1..])
  }

  function Statements(items: seq<Item>): seq<string> {
    if items == [] then [] else items[0].Contents() + Statements(items[1..])
  }

  predicate Distinct(s: seq<string>) {
    forall i, j :: 0 <= i < j < |s| ==> s[i] != s[j]
  }

  lemma {:induction false} WithoutHeaders(items: seq<Item>, headers: seq<string>, h: string)
    ensures h in Headers(Without(items, headers)) <==> h in Headers(items) && h !in headers
    ensures PlainLines(Without(items, headers)) == PlainLines(items)
  {
    if items != [] { WithoutHeaders(items[1..], headers, h); }
  }

  lemma {:induction false} GroupHeader(items: seq<Item>, h: string)
    ensures h in Headers(Group(items)) <==> h in Headers(items)
    decreases |items|
  {
    if items != [] {
      var rest := items[1..];
      if items[0].Plain? {
        GroupHeader(rest, h);
        HeadersCons(items[0], Group(rest));
      } else {
        var g := items[0].header;
        GroupHeader(Without(rest, [g]), h);
        WithoutHeaders(rest, [g], h);
        HeadersCons(Group(items)[0], Group(Without(rest, [g])));
      }
    }
  }

  lemma HeadersCons(x: Item, items: seq<Item>)
    ensures Headers([x] + items) == (if x.Block? then [x.header] else []) + Headers(items)
  {
    assert ([x] + items)[1..] == items;
  }

  lemma DistinctCons(g: string, s: seq<string>)
    requires Distinct(s) && g !in s
    ensures Distinct([g] + s)
  {
    forall i, j | 0 <= i < j < |[g] + s| ensures ([g] + s)[i] != ([g] + s)[j] {
      assert ([g] + s)[j] == s[j - 1];
      if i > 0 { assert ([g] + s)[i] == s[i - 1]; }
    }
  }

  /** Every top-level header of the program occurs once in the result. */
  lemma {:induction false} HeadersOnce(items: seq<Item>)
    ensures Distinct(Headers(Group(items)))
    ensures forall h :: h in Headers(Group(items)) <==> h in Headers(items)
    decreases |items|
  {
    if items != [] {
      var rest := items[1..];
      if items[0].Plain? {
        HeadersOnce(rest);
        HeadersCons(items[0], Group(rest));
      } else {
        var g := items[0].header;
        var left := Without(rest, [g]);
        HeadersOnce(left);
        HeadersCons(Group(items)[0], Group(left));
        WithoutHeaders(rest, [g], g);
        assert Headers(Group(items)) == [g] + Headers(Group(left));
        DistinctCons(g, Headers(Group(left)));
      }
    }
    forall h ensures h in Headers(Group(items)) <==> h in Headers(items) {
      GroupHeader(items, h);
    }
  }

  /** Under each header the same statements in the same order, and the plain lines in theirs. */
  lemma {:induction false} BodiesKept(items: seq<Item>, h: string)
    ensures Bodies(Group(items), h) == Bodies(items, h)
    ensures PlainLines(Group(items)) == PlainLines(items)
    decreases |items|
  {
    if items != [] {
      var x, rest := items[0], items[1..];
      if x.Plain? {
        BodiesKept(rest, h);
        assert ([x] + Group(rest))[1..] == Group(rest);
      } else {
        var left := Without(rest, [x.header]);
        BodiesKept(left, h);
        assert Group(items)[1..] == Group(left);
        WithoutHeaders(rest, [x.header], h);
        if h == x.header {
          NoBodies(left, h);
        } else {
          BodiesWithout(rest, [x.header], h);
        }
      }
    }
  }

  lemma {:induction false} NoBodies(items: seq<Item>, h: string)
    requires h !in Headers(items)
    ensures Bodies(items, h) == []
    ensures Without(items, [h]) == items
  {
    if items != [] { NoBodies(items[1..], h); }
  }

  lemma StatementsCons(x: Item, items: seq<Item>)
    ensures multiset(Statements([x] + items)) == multiset(x.Contents()) + multiset(Statements(items))
  {
    assert ([x] + items)[1..] == items;
  }

  lemma {:induction false} StatementsSplit(items: seq<Item>, h: string)
    ensures multiset(Statements(items)) == multiset(Bodies(items, h)) + multiset(Statements(Without(items, [h])))
  {
    if items != [] {
      var x, rest := items[0], items[1..];
      StatementsSplit(rest, h);
      StatementsCons(x, rest);
      assert items == [x] + rest;
      var dropped, left := Bodies(rest, h), Without(rest, [h]);
      if x.Heads(h) {
        assert Bodies(items, h) == x.body + dropped && Without(items, [h]) == left;
        hide *;
        assert multiset(x.body + dropped) == multiset(x.body) + multiset(dropped);
        ContentsOfBlock(x, h);
      } else {
        StatementsCons(x, left);
        assert Bodies(items, h) == [] + dropped == dropped && Without(items, [h]) == [x] + left;
        hide *;
      }
    }
  }

  lemma ContentsOfBlock(x: Item, h: string)
    requires x.Heads(h)
    ensures x.Contents() == x.body
  {
  }

  /** No statement is lost, duplicated or invented. */
  lemma {:induction false} StatementsConserved(items: seq<Item>)
    ensures multiset(Statements(Group(items))) == multiset(Statements(items))
    decreases |items|
  {
    if items != [] {
      var x, rest := items[0], items[1..];
      assert items == [x] + rest;
      StatementsCons(x, rest);
      if x.Plain? {
        StatementsConserved(rest);
        StatementsCons(x, Group(rest));
      } else {
        var left := Without(rest, [x.header]);
        StatementsConserved(left);
        StatementsSplit(rest, x.header);
        StatementsCons(Group(items)[0], Group(left));
      }
    }
  }

  // ---------- running it twice ----------

  lemma {:induction false} BodiesBalanced(items: seq<Item>, h: string)
    requires AllValid(items)
    ensures Balanced(Bodies(items, h), 1)
  {
    if items != [] {
      BodiesBalanced(items[1..], h);
      if items[0].Heads(h) {
        BalancedConcat(items[0].body, 1, Bodies(items[1..], h));
      } else {
        assert [] + Bodies(items[1..], h) == Bodies(items[1..], h);
      }
    }
  }

  lemma {:induction false} GroupValid(items: seq<Item>)
    requires AllValid(items)
    ensures AllValid(Group(items))
    decreases |items|
  {
    if items != [] {
      var x, rest := items[0], items[1..];
      if x.Plain? {
        GroupValid(rest);
      } else {
        WithoutValid(rest, [x.header]);
        GroupValid(Without(rest, [x.header]));
        BodiesBalanced(rest, x.header);
        BalancedConcat(x.body, 1, Bodies(rest, x.header));
      }
    }
  }

  lemma {:induction false} StraysWithout(items: seq<Item>, headers: seq<string>, h: string)
    requires Strays(items, h) == []
    ensures Strays(Without(items, headers), h) == []
  {
    if items != [] { StraysWithout(items[1..], headers, h); }
  }

  /** Text gathered from concatenated bodies is gathered from one of them. */
  lemma {:induction false} StraysBodies(items: seq<Item>, g: string, h: string)
    requires AllValid(items) && IsIf(h) == Yes && g != h && Strays(items, h) == []
    ensures Gather(Bodies(items, g), h) == Program([])
  {
    if items != [] {
      var x, rest := items[0], items[1..];
      StraysBodies(rest, g, h);
      if x.Heads(g) {
        GatherConcat(x.body, 1, h, Bodies(rest, g));
      } else {
        assert [] + Bodies(rest, g) == Bodies(rest, g);
      }
    }
  }

  lemma {:induction false} StraysGroup(items: seq<Item>, h: string)
    requires AllValid(items) && IsIf(h) == Yes && Strays(items, h) == []
    ensures Strays(Group(items), h) == []
    decreases |items|
  {
    if items != [] {
      var x, rest := items[0], items[1..];
      if x.Plain? {
        StraysGroup(rest, h);
        assert Group(items)[1..] == Group(rest);
      } else {
        var left := Without(rest, [x.header]);
        WithoutValid(rest, [x.header]);
        StraysWithout(rest, [x.header], h);
        StraysGroup(left, h);
        assert Group(items)[1..] == Group(left);
        if x.header != h {
          StraysBodies(rest, x.header, h);
          GatherConcat(x.body, 1, h, Bodies(rest, x.header));
        }
      }
    }
  }

  lemma {:induction false} TidyGroup(items: seq<Item>, seen: seq<string>, other: seq<string>)
    requires AllValid(items) && Tidy(items, seen)
    ensures Tidy(Group(Without(items, seen)), other)
  {
    if items != [] {
      var x, rest := items[0], items[1..];
      if x.Plain? {
        TidyGroup(rest, seen, other);
        assert Without(items, seen) == [x] + Without(rest, seen);
        assert Group([x] + Without(rest, seen))[1..] == Group(Without(rest, seen));
      } else if x.header in seen {
        TidyGroup(rest, seen, other);
      } else {
        var left := Without(rest, seen + [x.header]);
        WithoutTwice(rest, seen, [x.header]);
        assert Without(items, seen) == [x] + Without(rest, seen);
        var whole := Group([x] + Without(rest, seen));
        assert whole[1..] == Group(left);
        WithoutValid(rest, seen + [x.header]);
        StraysWithout(rest, seen + [x.header], x.header);
        StraysGroup(left, x.header);
        TidyGroup(rest, seen + [x.header], other);
        TidyGroup(rest, seen + [x.header], other + [x.header]);
      }
    }
  }

  lemma {:induction false} GroupDistinct(items: seq<Item>)
    requires Distinct(Headers(items))
    ensures Group(items) == items
    decreases |items|
  {
    if items != [] {
      var x, rest := items[0], items[1..];
      HeadersCons(x, rest);
      assert items == [x] + rest;
      if x.Plain? {
        assert Headers(items) == Headers(rest);
        GroupDistinct(rest);
      } else {
        assert Headers(items)[1..] == Headers(rest);
        forall i, j | 0 <= i < j < |Headers(rest)| ensures Headers(rest)[i] != Headers(rest)[j] {
          assert Headers(items)[i + 1] != Headers(items)[j + 1];
        }
        forall k | 0 <= k < |Headers(rest)| ensures Headers(rest)[k] != x.header {
          assert Headers(items)[k + 1] == Headers(rest)[k] && Headers(items)[0] == x.header;
        }
        NoBodies(rest, x.header);
        GroupDistinct(rest);
        assert x.body + [] == x.body;
      }
    }
  }

  /** A second run of the optimizer changes nothing. */
  lemma TwiceIsOnce(items: seq<Item>)
    requires AllValid(items) && Tidy(items, [])
    ensures Rewrite(Unparse(items), []).Program?
    ensures Rewrite(Rewrite(Unparse(items), []).lines, []) == Rewrite(Unparse(items), [])
  {
    GroupsIffTidy(items);
    WithoutNone(items);
    TidyGroup(items, [], []);
    GroupValid(items);
    HeadersOnce(items);
    GroupDistinct(Group(items));
    GroupsIffTidy(Group(items));
  }
}
