/**
 Two facts about every fragment the compiler prints, whatever it means: its
 placeholders are numbered without gap or repetition, and there are as many as
 leaves with a value and joins.
 */
module FilterPlaceholders {
  import opened FilterTree
  import opened FilterCompiler

  // ---------- placeholders ----------

  function Uses(ts: seq<Token>, n: int): nat {
    if ts == [] then 0 else (if ts[0] == Param(n) then 1 else 0) + Uses(ts[1..], n)
  }

  lemma {:induction false} UsesConcat(a: seq<Token>, b: seq<Token>, n: int)
    ensures Uses(a + b, n) == Uses(a, n) + Uses(b, n)
  {
    if a == [] {
      assert a + b == b;
    } else {
      assert (a + b)[1..] == a[1..] + b;
      UsesConcat(a[1..], b, n);
    }
  }

  function UsesAll(clauses: seq<seq<Token>>, n: int): nat {
    if clauses == [] then 0 else Uses(clauses[0], n) + UsesAll(clauses[1..], n)
  }

  lemma {:induction false} UsesAllConcat(a: seq<seq<Token>>, b: seq<seq<Token>>, n: int)
    ensures UsesAll(a + b, n) == UsesAll(a, n) + UsesAll(b, n)
  {
    if a == [] {
      assert a + b == b;
    } else {
      assert (a + b)[1..] == a[1..] + b;
      UsesAllConcat(a[1..], b, n);
    }
  }

  lemma {:induction false} UsesJoin(clauses: seq<seq<Token>>, joiner: Token, n: int)
    requires !joiner.Param?
    ensures Uses(Join(clauses, joiner), n) == UsesAll(clauses, n)
  {
    if |clauses| > 1 {
      UsesJoin(clauses[1..], joiner, n);
      UsesConcat(clauses[0] + [joiner], Join(clauses[1..], joiner), n);
      UsesConcat(clauses[0], [joiner], n);
    } else if |clauses| == 1 {
      assert UsesAll(clauses[1..], n) == 0;
    }
  }

  lemma UsesWrapped(open: seq<Token>, inner: seq<Token>, close: seq<Token>, n: int)
    ensures Uses(open + inner + close, n) == Uses(open, n) + Uses(inner, n) + Uses(close, n)
  {
    UsesConcat(open + inner, close, n);
    UsesConcat(open, inner, n);
  }

  // The numbers p, p+1, .., p+count-1.
  function InRange(n: int, p: int, count: nat): nat {
    if p <= n < p + count then 1 else 0
  }

  // The one placeholder of a leaf clause, if it has any.
  lemma LeafPlaceholder(f: FieldFilter, p: int, alias: string) returns (i: nat)
    requires LeafFragment(f, p, alias).Ok? && f.isNull.None?
    ensures var ts := LeafFragment(f, p, alias).value.clause;
            i < |ts| && ts[i] == Param(p) && forall k | 0 <= k < |ts| && k != i :: !ts[k].Param?
  {
    i := if |LeafFragment(f, p, alias).value.clause| == 3 then 2 else 3;
  }

  lemma LeafUses(f: FieldFilter, p: int, alias: string, n: int)
    requires LeafFragment(f, p, alias).Ok?
    ensures var leaf := LeafFragment(f, p, alias).value;
            Uses(leaf.clause, n) == InRange(n, p, |leaf.params|)
  {
    var ts := LeafFragment(f, p, alias).value.clause;
    if f.isNull.Some? {
      NoParams(ts, n);
    } else {
      var i := LeafPlaceholder(f, p, alias);
      assert ts == ts[..i] + [Param(p)] + ts[i + 1..];
      UsesWrapped(ts[..i], [Param(p)], ts[i + 1..], n);
      NoParams(ts[..i], n);
      NoParams(ts[i + 1..], n);
    }
  }

  lemma JoinedUses(j: JoinedFilter, inner: seq<Token>, m: int, n: int)
    ensures Uses(ExistsRecordTokens(j, inner, m), n) == Uses(inner, n) + InRange(n, m, 1)
  {
    var head := [ExistsRecord, Val(Column("d", "collection")), Op(IsEq), Param(m), AND,
                 Val(Column("d", "uri")), Op(IsEq), Val(JsonText("r", j.joinPath))];
    assert Uses(head, n) == InRange(n, m, 1) by {
      assert head == head[..3] + [Param(m)] + head[4..];
      UsesWrapped(head[..3], [Param(m)], head[4..], n);
      NoParams(head[..3], n);
      NoParams(head[4..], n);
    }
    var mid := if inner == [] then [] else [AND, LP] + inner + [RP];
    if inner != [] {
      UsesWrapped([AND, LP], inner, [RP], n);
      NoParams([AND, LP], n);
    }
    UsesWrapped(head, mid, [RP], n);
  }

  lemma {:induction false} NoParams(ts: seq<Token>, n: int)
    requires forall i | 0 <= i < |ts| :: !ts[i].Param?
    ensures Uses(ts, n) == 0
  {
    if ts != [] {
      NoParams(ts[1..], n);
    }
  }

  lemma {:induction false} EntryUses(g: FilterGroup, k: nat, p: int, depth: nat, alias: string, n: int)
    requires k < Total(g) && EntrySection(g, k, p, depth, alias).Ok?
    ensures var s := EntrySection(g, k, p, depth, alias).value;
            UsesAll(s.clauses, n) == InRange(n, p, |s.params|)
    decreases g, 0
  {
    var c := |g.filters|;
    var j := c + |g.children|;
    var a := j + |g.joined|;
    var s := EntrySection(g, k, p, depth, alias).value;
    assert s.clauses != [] ==> s.clauses[1..] == [];
    if k < c {
      LeafUses(g.filters[k], p, alias, n);
    } else if k < j {
      var child := g.children[k - c];
      GroupUses(child, p, depth + 1, alias, n);
      UsesWrapped([LP], GroupFragment(child, p, depth + 1, alias).value.clause, [RP], n);
      GroupNothing(child, p, depth + 1, alias);
    } else if k < a {
      var join := g.joined[k - j];
      var inner := GroupFragment(join.inner, p, 0, "d").value;
      GroupUses(join.inner, p, 0, "d", n);
      JoinedUses(join, inner.clause, p + |inner.params|, n);
    } else {
      var arr := g.arrays[k - a];
      var inner := GroupFragment(arr.inner, p, 0, "e").value;
      GroupUses(arr.inner, p, 0, "e", n);
      GroupNothing(arr.inner, p, 0, "e");
      var mid := if inner.clause == [] then [] else [WHERE] + inner.clause;
      UsesConcat([WHERE], inner.clause, n);
      UsesWrapped([ExistsArray(arr.arrayPath)], mid, [RP], n);
    }
  }

  lemma {:induction false} EntriesUse(g: FilterGroup, k: nat, p: int, depth: nat, alias: string, n: int)
    requires k <= Total(g) && EntriesFrom(g, k, p, depth, alias).Ok?
    ensures var s := EntriesFrom(g, k, p, depth, alias).value;
            UsesAll(s.clauses, n) == InRange(n, p, |s.params|)
    decreases g, 1 + Total(g) - k
  {
    if k < Total(g) {
      var first := EntrySection(g, k, p, depth, alias).value;
      var rest := EntriesFrom(g, k + 1, p + |first.params|, depth, alias).value;
      EntryUses(g, k, p, depth, alias, n);
      EntriesUse(g, k + 1, p + |first.params|, depth, alias, n);
      UsesAllConcat(first.clauses, rest.clauses, n);
    }
  }

  // A group without clauses carries no arguments.
  lemma GroupNothing(g: FilterGroup, p: int, depth: nat, alias: string)
    requires GroupFragment(g, p, depth, alias).Ok?
    ensures GroupFragment(g, p, depth, alias).value.clause == [] ==>
            GroupFragment(g, p, depth, alias).value.params == []
  {
    if !g.IsEmpty() {
      var section := EntriesFrom(g, 0, p, depth, alias).value;
      if |section.clauses| > 0 {
        assert |section.clauses[0]| > 0;
      }
    }
  }

  lemma {:induction false} GroupUses(g: FilterGroup, p: int, depth: nat, alias: string, n: int)
    requires GroupFragment(g, p, depth, alias).Ok?
    ensures var fragment := GroupFragment(g, p, depth, alias).value;
            Uses(fragment.clause, n) == InRange(n, p, |fragment.params|)
    decreases g, 2 + Total(g)
  {
    if !g.IsEmpty() {
      EntriesUse(g, 0, p, depth, alias, n);
      UsesJoin(EntriesFrom(g, 0, p, depth, alias).value.clauses, Joiner(g.op), n);
    }
  }

  // Every number from p on, one for each argument, occurs exactly once; no other number occurs.
  lemma PlaceholdersAreExact(g: FilterGroup, p: int, n: int)
    requires Compile(g, p).Ok?
    ensures var fragment := Compile(g, p).value;
            Uses(fragment.clause, n) == if p <= n < p + |fragment.params| then 1 else 0
  {
    GroupUses(g, p, 0, "r", n);
  }

  // ---------- how many arguments ----------

  // Leaves without `isNull` plus joined filters, over the whole tree.
  function ArgCount(g: FilterGroup): nat
    decreases g, 1
  {
    Sum(LeafArgs(g)) + Sum(ChildArgs(g)) + Sum(JoinedArgs(g)) + Sum(ArrayArgs(g))
  }

  function LeafArgs(g: FilterGroup): seq<nat> {
    seq(|g.filters|, i requires 0 <= i < |g.filters| => if g.filters[i].isNull.Some? then 0 else 1)
  }

  function ChildArgs(g: FilterGroup): seq<nat>
    decreases g, 0
  {
    seq(|g.children|, i requires 0 <= i < |g.children| => ArgCount(g.children[i]))
  }

  function JoinedArgs(g: FilterGroup): seq<nat>
    decreases g, 0
  {
    seq(|g.joined|, i requires 0 <= i < |g.joined| => 1 + ArgCount(g.joined[i].inner))
  }

  function ArrayArgs(g: FilterGroup): seq<nat>
    decreases g, 0
  {
    seq(|g.arrays|, i requires 0 <= i < |g.arrays| => ArgCount(g.arrays[i].inner))
  }

  // The same counts, one per entry.
  function EntryArgs(g: FilterGroup): (counts: seq<nat>)
    ensures |counts| == Total(g)
  {
    LeafArgs(g) + ChildArgs(g) + JoinedArgs(g) + ArrayArgs(g)
  }

  lemma {:induction false} SumConcat(xs: seq<nat>, ys: seq<nat>)
    ensures Sum(xs + ys) == Sum(xs) + Sum(ys)
  {
    if xs == [] {
      assert xs + ys == ys;
    } else {
      assert (xs + ys)[1..] == xs[1..] + ys;
      SumConcat(xs[1..], ys);
    }
  }

  lemma ArgCountByEntries(g: FilterGroup)
    ensures ArgCount(g) == Sum(EntryArgs(g))
  {
    SumConcat(LeafArgs(g) + ChildArgs(g) + JoinedArgs(g), ArrayArgs(g));
    SumConcat(LeafArgs(g) + ChildArgs(g), JoinedArgs(g));
    SumConcat(LeafArgs(g), ChildArgs(g));
  }

  lemma {:induction false} EntryArgCount(g: FilterGroup, k: nat, p: int, depth: nat, alias: string)
    requires k < Total(g) && EntrySection(g, k, p, depth, alias).Ok?
    ensures |EntrySection(g, k, p, depth, alias).value.params| == EntryArgs(g)[k]
    decreases g, 0
  {
    var c := |g.filters|;
    var j := c + |g.children|;
    var a := j + |g.joined|;
    if k < c {
      assert EntryArgs(g)[k] == LeafArgs(g)[k];
    } else if k < j {
      assert EntryArgs(g)[k] == ChildArgs(g)[k - c];
      GroupArgCount(g.children[k - c], p, depth + 1, alias);
      GroupNothing(g.children[k - c], p, depth + 1, alias);
    } else if k < a {
      assert EntryArgs(g)[k] == JoinedArgs(g)[k - j];
      GroupArgCount(g.joined[k - j].inner, p, 0, "d");
    } else {
      assert EntryArgs(g)[k] == ArrayArgs(g)[k - a];
      GroupArgCount(g.arrays[k - a].inner, p, 0, "e");
    }
  }

  lemma {:induction false} EntriesArgCount(g: FilterGroup, k: nat, p: int, depth: nat, alias: string)
    requires k <= Total(g) && EntriesFrom(g, k, p, depth, alias).Ok?
    ensures |EntriesFrom(g, k, p, depth, alias).value.params| == Sum(EntryArgs(g)[k..])
    decreases g, 1 + Total(g) - k
  {
    if k < Total(g) {
      var first := EntrySection(g, k, p, depth, alias).value;
      EntryArgCount(g, k, p, depth, alias);
      EntriesArgCount(g, k + 1, p + |first.params|, depth, alias);
      assert EntryArgs(g)[k..][1..] == EntryArgs(g)[k + 1..];
    }
  }

  lemma {:induction false} GroupArgCount(g: FilterGroup, p: int, depth: nat, alias: string)
    requires GroupFragment(g, p, depth, alias).Ok?
    ensures |GroupFragment(g, p, depth, alias).value.params| == ArgCount(g)
    decreases g, 2 + Total(g)
  {
    ArgCountByEntries(g);
    if !g.IsEmpty() {
      EntriesArgCount(g, 0, p, depth, alias);
      assert EntryArgs(g)[0..] == EntryArgs(g);
      EntriesNothing(g, 0, p, depth, alias);
    }
  }

  lemma {:induction false} EntriesNothing(g: FilterGroup, k: nat, p: int, depth: nat, alias: string)
    requires k <= Total(g) && EntriesFrom(g, k, p, depth, alias).Ok?
    ensures var s := EntriesFrom(g, k, p, depth, alias).value; s.clauses == [] ==> s.params == []
    decreases Total(g) - k
  {
    if k < Total(g) {
      var first := EntrySection(g, k, p, depth, alias).value;
      EntriesNothing(g, k + 1, p + |first.params|, depth, alias);
    }
  }

  lemma ArgumentCount(g: FilterGroup, p: int)
    requires Compile(g, p).Ok?
    ensures |Compile(g, p).value.params| == ArgCount(g)
  {
    GroupArgCount(g, p, 0, "r");
  }
}
