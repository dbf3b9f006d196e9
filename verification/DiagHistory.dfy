/**
 * The diagnostic set over its whole life: any number of updates with fresh
 * lists, then its end (esp_br_web_base.c). Every list ever given is freed
 * exactly once, when it is replaced or with the set.
 */
module DiagHistory {
  import opened DiagSet

  /** All lists the set ever sees are numbered; it holds those with the numbers `held`. */
  function Pick(all: seq<seq<ListNode>>, held: seq<nat>): (lists: seq<seq<ListNode>>)
    requires forall i | 0 <= i < |held| :: held[i] < |all|
    ensures |lists| == |held| && forall i | 0 <= i < |held| :: lists[i] == all[held[i]]
  {
    seq(|held|, i requires 0 <= i < |held| => all[held[i]])
  }

  /** Different numbers below `limit`. */
  predicate Numbers(held: seq<nat>, limit: nat) {
    && (forall i | 0 <= i < |held| :: held[i] < limit)
    && (forall i, j | 0 <= i < j < |held| :: held[i] != held[j])
  }

  predicate Outside(x: seq<ListNode>, lists: seq<seq<ListNode>>) {
    forall k | 0 <= k < |x| :: x[k] !in AllNodes(lists) && x[k].diagTlv !in AllBlocks(lists)
  }

  /** Nodes and records of a list the set does not hold are none of the set's. */
  lemma NotHeld(all: seq<seq<ListNode>>, held: seq<nat>, j: nat)
    requires Disjoint(all) && Numbers(held, |all|) && j < |all| && j !in held
    ensures Outside(all[j], Pick(all, held))
  {
    var lists := Pick(all, held);
    forall i | 0 <= i < |lists|
      ensures Apart(all[j], lists[i])
    {
      assert held[i] in held;
      assert Apart(all[j], all[held[i]]);
    }
  }

  /** A list the set does not hold: gone when it is below `limit`, else live and waiting for its turn. */
  ghost predicate AsideAt(all: seq<seq<ListNode>>, heads: seq<ListNode?>, limit: nat, j: nat)
    requires j < |all| == |heads|
    reads *
  {
    Standing(heads[j], all[j], j < limit)
  }

  ghost predicate Aside(all: seq<seq<ListNode>>, heads: seq<ListNode?>, held: seq<nat>, limit: nat)
    reads *
  {
    |all| == |heads| && forall j | 0 <= j < |all| && j !in held :: AsideAt(all, heads, limit, j)
  }

  /** Where list number `limit` goes: into the place of the list it replaces, or behind the others. */
  function HeldAfter(held: seq<nat>, at: nat, limit: nat): seq<nat> {
    if at < |held| then held[at := limit] else held + [limit]
  }

  lemma PickAfter(all: seq<seq<ListNode>>, held: seq<nat>, at: nat, limit: nat)
    requires limit < |all| && Numbers(held, limit)
    ensures Numbers(HeldAfter(held, at, limit), limit + 1)
    ensures Pick(all, HeldAfter(held, at, limit))
         == if at < |held| then Pick(all, held)[at := all[limit]] else Pick(all, held) + [all[limit]]
  {
  }

  lemma StillAside(all: seq<seq<ListNode>>, heads: seq<ListNode?>, held: seq<nat>, at: nat, limit: nat)
    requires |all| == |heads| && Numbers(held, limit) && limit < |all|
    requires forall j | 0 <= j < |all| && j !in held && j != limit :: AsideAt(all, heads, limit, j)
    requires at < |held| ==> Gone(all[held[at]])
    ensures Aside(all, heads, HeldAfter(held, at, limit), limit + 1)
  {
    var after := HeldAfter(held, at, limit);
    forall j | 0 <= j < |all| && j !in after
      ensures AsideAt(all, heads, limit + 1, j)
    {
      assert after[if at < |held| then at else |held|] == limit;
      assert forall i | 0 <= i < |held| && i != at :: after[i] == held[i];
      assert j in held ==> at < |held| && j == held[at];
      assert j !in held ==> AsideAt(all, heads, limit, j);
    }
  }

  /** An update leaves nodes and records outside the set as they are. */
  method UpdateApart(first: SetNode, rloc16: string, list: ListNode?, ghost nodes: seq<SetNode>,
                     ghost lists: seq<seq<ListNode>>, ghost newList: seq<ListNode>, ghost far: set<ListNode>,
                     ghost farBlocks: set<Block>)
    returns (ghost nodes': seq<SetNode>, ghost lists': seq<seq<ListNode>>)
    requires IsSet(first, nodes, lists) && |rloc16| < RLOC_STRING_MAX_SIZE
    requires Live(list, newList) && Disjoint(lists + [newList])
    requires (forall x | x in far :: x !in AllNodes(lists)) && (forall b | b in farBlocks :: b !in AllBlocks(lists))
    modifies nodes`next, nodes`diagTlvNext, AllNodes(lists)`freed, AllBlocks(lists)`freed
    ensures IsSet(first, nodes', lists')
    ensures Rows(nodes', lists') == Updated(Rows(nodes, lists), rloc16, Tlvs(newList))
    ensures var at := IndexOf(Rows(nodes, lists), rloc16);
            && lists' == (if at < |nodes| then lists[at := newList] else lists + [newList])
            && (at < |nodes| ==> Gone(lists[at]))
    ensures nodes <= nodes' && forall i | |nodes| <= i < |nodes'| :: fresh(nodes'[i])
    ensures forall x | x in far :: x.freed == old(x.freed) && x.next == old(x.next)
    ensures forall b | b in farBlocks :: b.freed == old(b.freed)
  {
    var ret;
    ret, nodes', lists' := UpdateSet(first, rloc16, list, nodes, lists, newList);
  }

  function NodesOf(all: seq<seq<ListNode>>, asides: set<nat>): set<ListNode>
    requires forall j | j in asides :: j < |all|
  {
    set j, k | j in asides && 0 <= k < |all[j]| :: all[j][k]
  }

  function RecordsOf(all: seq<seq<ListNode>>, asides: set<nat>): set<Block>
    requires forall j | j in asides :: j < |all|
  {
    set j, k | j in asides && 0 <= k < |all[j]| :: all[j][k].diagTlv
  }

  /** An update leaves lists outside the set as they stand. */
  method UpdateAmong(first: SetNode, rloc16: string, list: ListNode?, ghost nodes: seq<SetNode>,
                     ghost lists: seq<seq<ListNode>>, ghost newList: seq<ListNode>,
                     ghost all: seq<seq<ListNode>>, ghost heads: seq<ListNode?>, ghost limit: nat,
                     ghost asides: set<nat>)
    returns (ghost nodes': seq<SetNode>, ghost lists': seq<seq<ListNode>>)
    requires IsSet(first, nodes, lists) && |rloc16| < RLOC_STRING_MAX_SIZE
    requires Live(list, newList) && Disjoint(lists + [newList])
    requires |all| == |heads|
    requires forall j | j in asides :: j < |all| && Outside(all[j], lists) && AsideAt(all, heads, limit, j)
    modifies nodes`next, nodes`diagTlvNext, AllNodes(lists)`freed, AllBlocks(lists)`freed
    ensures IsSet(first, nodes', lists')
    ensures Rows(nodes', lists') == Updated(Rows(nodes, lists), rloc16, Tlvs(newList))
    ensures var at := IndexOf(Rows(nodes, lists), rloc16);
            && lists' == (if at < |nodes| then lists[at := newList] else lists + [newList])
            && (at < |nodes| ==> Gone(lists[at]))
    ensures nodes <= nodes' && forall i | |nodes| <= i < |nodes'| :: fresh(nodes'[i])
    ensures forall j | j in asides :: AsideAt(all, heads, limit, j)
  {
    ghost var far, farRecords := NodesOf(all, asides), RecordsOf(all, asides);
    nodes', lists' := UpdateApart(first, rloc16, list, nodes, lists, newList, far, farRecords);
    forall j | j in asides
      ensures AsideAt(all, heads, limit, j)
    {
      var x := all[j];
      assert old(Standing(heads[j], x, j < limit));
      assert forall k | 0 <= k < |x| :: x[k] in far && x[k].diagTlv in farRecords;
      assert Standing(heads[j], x, j < limit);
    }
  }

  lemma AsideNow(all: seq<seq<ListNode>>, heads: seq<ListNode?>, held: seq<nat>, limit: nat) returns (asides: set<nat>)
    requires Disjoint(all) && Numbers(held, limit) && limit < |all| && Aside(all, heads, held, limit)
    ensures forall j | 0 <= j < |all| && j !in held && j != limit :: j in asides
    ensures forall j | j in asides :: j < |all| && Outside(all[j], Pick(all, held)) && AsideAt(all, heads, limit, j)
  {
    asides := set j | 0 <= j < |all| && j !in held && j != limit;
    forall j | j in asides
      ensures Outside(all[j], Pick(all, held))
    {
      NotHeld(all, held, j);
    }
  }

  lemma NextFits(all: seq<seq<ListNode>>, heads: seq<ListNode?>, held: seq<nat>, limit: nat)
    requires Disjoint(all) && Numbers(held, limit) && limit < |all| && Aside(all, heads, held, limit)
    ensures Live(heads[limit], all[limit]) && Disjoint(Pick(all, held) + [all[limit]])
  {
    assert limit !in held && AsideAt(all, heads, limit, limit);
    PickAfter(all, held, |held|, limit);
  }

  /** One update: the list it replaces joins the others that are gone. */
  method UpdateOne(first: SetNode, rloc16: string, list: ListNode?, ghost nodes: seq<SetNode>,
                   ghost all: seq<seq<ListNode>>, ghost heads: seq<ListNode?>, ghost held: seq<nat>, ghost limit: nat)
    returns (ghost nodes': seq<SetNode>, ghost held': seq<nat>)
    requires Disjoint(all) && limit < |all| && Numbers(held, limit) && IsSet(first, nodes, Pick(all, held))
    requires Aside(all, heads, held, limit) && heads[limit] == list && |rloc16| < RLOC_STRING_MAX_SIZE
    modifies nodes`next, nodes`diagTlvNext, AllNodes(Pick(all, held))`freed, AllBlocks(Pick(all, held))`freed
    ensures Numbers(held', limit + 1) && IsSet(first, nodes', Pick(all, held')) && Aside(all, heads, held', limit + 1)
    ensures Rows(nodes', Pick(all, held')) == Updated(Rows(nodes, Pick(all, held)), rloc16, Tlvs(all[limit]))
    ensures nodes <= nodes' && forall i | |nodes| <= i < |nodes'| :: fresh(nodes'[i])
  {
    ghost var lists := Pick(all, held);
    ghost var at := IndexOf(Rows(nodes, lists), rloc16);
    assert Live(list, all[limit]) && Disjoint(lists + [all[limit]]) by {
      NextFits(all, heads, held, limit);
    }
    ghost var asides := AsideNow(all, heads, held, limit);
    ghost var lists';
    nodes', lists' := UpdateAmong(first, rloc16, list, nodes, lists, all[limit], all, heads, limit, asides);
    held' := HeldAfter(held, at, limit);
    assert Numbers(held', limit + 1) && Pick(all, held') == lists' by {
      PickAfter(all, held, at, limit);
    }
    assert Aside(all, heads, held', limit + 1) by {
      StillAside(all, heads, held, at, limit);
    }
  }

  // ------------------------------------------------------------ any number of updates

  datatype Update = Update(rloc16: string, list: ListNode?)

  /** The updates as rows: list number `base + i` belongs to update i. */
  function RowsGiven(updates: seq<Update>, all: seq<seq<ListNode>>, base: nat): (rows: seq<Row>)
    requires base + |updates| <= |all|
    ensures |rows| == |updates|
  {
    seq(|updates|, i requires 0 <= i < |updates| => Row(updates[i].rloc16, Tlvs(all[base + i])))
  }

  predicate KeysFit(updates: seq<Update>) {
    forall i | 0 <= i < |updates| :: |updates[i].rloc16| < RLOC_STRING_MAX_SIZE
  }

  /** The lists the updates bring are live behind their pointers. */
  ghost predicate Given(updates: seq<Update>, all: seq<seq<ListNode>>, base: nat)
    requires base + |updates| <= |all|
    reads *
  {
    forall i | 0 <= i < |updates| :: Standing(updates[i].list, all[base + i], false)
  }

  function Upto(n: nat): (held: seq<nat>)
    ensures |held| == n && forall i | 0 <= i < n :: held[i] == i
  {
    seq(n, i => i)
  }

  predicate HeadsOfUpdates(updates: seq<Update>, heads: seq<ListNode?>, base: nat) {
    |heads| == base + |updates| && forall j | base <= j < |heads| :: heads[j] == updates[j - base].list
  }

  lemma NextUpdate(updates: seq<Update>, all: seq<seq<ListNode>>, heads: seq<ListNode?>, base: nat, i: nat)
    requires i < |updates| && base + |updates| == |all| && HeadsOfUpdates(updates, heads, base) && KeysFit(updates)
    ensures heads[base + i] == updates[i].list && |updates[i].rloc16| < RLOC_STRING_MAX_SIZE
    ensures RowsGiven(updates, all, base)[i] == Row(updates[i].rloc16, Tlvs(all[base + i]))
  {
  }

  lemma StartAside(updates: seq<Update>, all: seq<seq<ListNode>>, base: nat) returns (heads: seq<ListNode?>)
    requires base + |updates| == |all| && Given(updates, all, base)
    ensures Numbers(Upto(base), base) && Aside(all, heads, Upto(base), base)
    ensures HeadsOfUpdates(updates, heads, base)
  {
    heads := seq(|all|, j requires 0 <= j < |all| => if j < base then null else updates[j - base].list);
    forall i: nat | i < base
      ensures i in Upto(base)
    {
      assert Upto(base)[i] == i;
    }
    forall j | 0 <= j < |all| && j !in Upto(base)
      ensures AsideAt(all, heads, base, j)
    {
      assert Standing(updates[j - base].list, all[base + (j - base)], false);
    }
  }

  lemma OneMoreGiven(rows: seq<Row>, given: seq<Row>, i: nat)
    requires i < |given|
    ensures UpdatedAll(rows, given[..i + 1]) == Updated(UpdatedAll(rows, given[..i]), given[i].key, given[i].tlvs)
  {
    assert given[..i + 1][..i] == given[..i];
  }

  /** Where the set and the lists outside it stand after the updates that brought the lists below `limit`. */
  ghost predicate InStep(first: SetNode, nodes: seq<SetNode>, all: seq<seq<ListNode>>, heads: seq<ListNode?>,
                         held: seq<nat>, limit: nat, rows: seq<Row>)
    reads *
  {
    && limit <= |all| && Numbers(held, limit) && IsSet(first, nodes, Pick(all, held)) && Aside(all, heads, held, limit)
    && Rows(nodes, Pick(all, held)) == rows
  }

  /** Update number i, against the rows that i updates give. */
  method UpdateNext(first: SetNode, updates: seq<Update>, i: nat, ghost nodes: seq<SetNode>,
                    ghost all: seq<seq<ListNode>>, ghost base: nat, ghost heads: seq<ListNode?>,
                    ghost held: seq<nat>, ghost limit: nat, ghost rows: seq<Row>)
    returns (ghost nodes': seq<SetNode>, ghost held': seq<nat>)
    requires i < |updates| && base + |updates| == |all| && limit == base + i && Disjoint(all) && KeysFit(updates)
    requires HeadsOfUpdates(updates, heads, base)
    requires InStep(first, nodes, all, heads, held, limit, UpdatedAll(rows, RowsGiven(updates, all, base)[..i]))
    modifies nodes, AllNodes(all)`freed, AllBlocks(all)`freed
    ensures InStep(first, nodes', all, heads, held', limit + 1,
            UpdatedAll(rows, RowsGiven(updates, all, base)[..i + 1]))
    ensures nodes <= nodes' && forall j | |nodes| <= j < |nodes'| :: fresh(nodes'[j])
  {
    ghost var given := RowsGiven(updates, all, base);
    assert AllNodes(Pick(all, held)) <= AllNodes(all) && AllBlocks(Pick(all, held)) <= AllBlocks(all);
    assert heads[limit] == updates[i].list && |updates[i].rloc16| < RLOC_STRING_MAX_SIZE by {
      NextUpdate(updates, all, heads, base, i);
    }
    nodes', held' := UpdateOne(first, updates[i].rloc16, updates[i].list, nodes, all, heads, held, limit);
    assert Rows(nodes', Pick(all, held')) == UpdatedAll(rows, given[..i + 1]) by {
      NextUpdate(updates, all, heads, base, i);
      OneMoreGiven(rows, given, i);
    }
  }

  /** The updates from number i on. */
  method UpdateFrom(first: SetNode, updates: seq<Update>, i: nat, ghost nodes: seq<SetNode>,
                    ghost all: seq<seq<ListNode>>, ghost base: nat, ghost heads: seq<ListNode?>,
                    ghost held: seq<nat>, ghost limit: nat, ghost rows: seq<Row>)
    returns (ghost nodes': seq<SetNode>, ghost held': seq<nat>)
    requires i <= |updates| && base + |updates| == |all| && limit == base + i && Disjoint(all) && KeysFit(updates)
    requires HeadsOfUpdates(updates, heads, base)
    requires InStep(first, nodes, all, heads, held, limit, UpdatedAll(rows, RowsGiven(updates, all, base)[..i]))
    modifies nodes, AllNodes(all)`freed, AllBlocks(all)`freed
    ensures InStep(first, nodes', all, heads, held', |all|, UpdatedAll(rows, RowsGiven(updates, all, base)))
    ensures nodes <= nodes' && forall j | |nodes| <= j < |nodes'| :: fresh(nodes'[j])
    decreases |updates| - i
  {
    if i == |updates| {
      nodes', held' := nodes, held;
      assert RowsGiven(updates, all, base)[..i] == RowsGiven(updates, all, base);
    } else {
      ghost var between;
      between, held' := UpdateNext(first, updates, i, nodes, all, base, heads, held, limit, rows);
      nodes', held' := UpdateFrom(first, updates, i + 1, between, all, base, heads, held', limit + 1, rows);
      assert nodes <= nodes';
      forall j | |nodes| <= j < |nodes'|
        ensures fresh(nodes'[j])
      {
        assert j < |between| ==> nodes'[j] == between[j];
      }
    }
  }

  /**
   * Any sequence of updates with fresh lists: the rows are those of the pure
   * map, the set holds the lists numbered `held`, and every other list given to
   * it is gone.
   */
  method UpdateAll(first: SetNode, updates: seq<Update>, ghost nodes: seq<SetNode>, ghost all: seq<seq<ListNode>>,
                   ghost base: nat)
    returns (ghost nodes': seq<SetNode>, ghost held: seq<nat>, ghost heads: seq<ListNode?>)
    requires base + |updates| == |all| && Disjoint(all) && Given(updates, all, base) && KeysFit(updates)
    requires IsSet(first, nodes, Pick(all, Upto(base)))
    modifies nodes, AllNodes(all)`freed, AllBlocks(all)`freed
    ensures Numbers(held, |all|) && IsSet(first, nodes', Pick(all, held)) && Aside(all, heads, held, |all|)
    ensures Rows(nodes', Pick(all, held))
            == UpdatedAll(Rows(nodes, Pick(all, Upto(base))), RowsGiven(updates, all, base))
    ensures nodes <= nodes' && forall i | |nodes| <= i < |nodes'| :: fresh(nodes'[i])
  {
    heads := StartAside(updates, all, base);
    ghost var rows := Rows(nodes, Pick(all, Upto(base)));
    assert UpdatedAll(rows, RowsGiven(updates, all, base)[..0]) == rows;
    nodes', held := UpdateFrom(first, updates, 0, nodes, all, base, heads, Upto(base), base, rows);
  }

  /** The end of the set leaves lists outside it as they stand. */
  method DestroyAmong(first: SetNode, ghost nodes: seq<SetNode>, ghost all: seq<seq<ListNode>>,
                      ghost heads: seq<ListNode?>, ghost held: seq<nat>)
    requires Disjoint(all) && Numbers(held, |all|) && IsSet(first, nodes, Pick(all, held))
             && Aside(all, heads, held, |all|)
    modifies nodes`freed, nodes`diagTlvNext, AllNodes(Pick(all, held))`freed, AllBlocks(Pick(all, held))`freed
    ensures forall i | 0 <= i < |nodes| :: nodes[i].freed == 1
    ensures forall j | 0 <= j < |all| :: GoneAt(all, j)
  {
    ghost var lists := Pick(all, held);
    DestroySet(first, nodes, lists);
    forall j | 0 <= j < |all|
      ensures GoneAt(all, j)
    {
      if j in held {
        var i :| 0 <= i < |held| && held[i] == j;
        assert GoneAt(lists, i);
      } else {
        NotHeld(all, held, j);
        var x := all[j];
        assert old(AsideAt(all, heads, |all|, j));
        forall k | 0 <= k < |x|
          ensures x[k].freed == old(x[k].freed) && x[k].diagTlv.freed == old(x[k].diagTlv.freed)
        {
          assert x[k] !in AllNodes(lists) && x[k].diagTlv !in AllBlocks(lists);
        }
      }
    }
  }

  /**
   * The whole life of a set: it starts with some lists, takes any number of
   * updates and is destroyed. Just before its end it had the rows of the pure
   * map, one node and one list for each; afterwards each of these nodes, old or
   * new, and every list it ever had, replaced or not, has been freed exactly once.
   */
  method WholeLife(first: SetNode, updates: seq<Update>, ghost nodes: seq<SetNode>, ghost all: seq<seq<ListNode>>,
                   ghost base: nat)
    returns (ghost nodes': seq<SetNode>, ghost held: seq<nat>)
    requires base + |updates| == |all| && Disjoint(all) && Given(updates, all, base) && KeysFit(updates)
    requires IsSet(first, nodes, Pick(all, Upto(base)))
    modifies nodes, AllNodes(all)`freed, AllBlocks(all)`freed
    ensures Numbers(held, |all|) && |held| == |nodes'|
    ensures Rows(nodes', Pick(all, held))
            == UpdatedAll(Rows(nodes, Pick(all, Upto(base))), RowsGiven(updates, all, base))
    ensures nodes <= nodes' && forall i | |nodes| <= i < |nodes'| :: fresh(nodes'[i])
    ensures forall i, j | 0 <= i < j < |nodes'| :: nodes'[i] != nodes'[j]
    ensures forall i | 0 <= i < |nodes'| :: nodes'[i].freed == 1
    ensures forall j | 0 <= j < |all| :: GoneAt(all, j)
  {
    ghost var heads;
    nodes', held, heads := UpdateAll(first, updates, nodes, all, base);
    assert AllNodes(Pick(all, held)) <= AllNodes(all) && AllBlocks(Pick(all, held)) <= AllBlocks(all);
    DestroyAmong(first, nodes', all, heads, held);
  }
}
