/**
 * The Thread diagnostic set (esp_br_web_base.c): a linked list of nodes keyed
 * by RLOC16, each owning a linked list of TLV records, kept as malloc and free
 * leave them.
 */
module DiagSet {
  import opened Common

  type Tlv = int

  // ------------------------------------------------------------ the abstract map

  datatype Row = Row(key: string, tlvs: seq<Tlv>)

  /** Rows in insertion order; an update replaces in place or appends. */
  function Updated(rows: seq<Row>, key: string, tlvs: seq<Tlv>): seq<Row> {
    if rows == [] then [Row(key, tlvs)]
    else if rows[0].key == key then [Row(key, tlvs)] + rows[1..]
    else [rows[0]] + Updated(rows[1..], key, tlvs)
  }

  function IndexOf(rows: seq<Row>, key: string): (i: nat)
    ensures i <= |rows|
    ensures forall j | 0 <= j < i :: rows[j].key != key
    ensures i < |rows| ==> rows[i].key == key
  {
    if rows == [] || rows[0].key == key then 0 else 1 + IndexOf(rows[1..], key)
  }

  predicate DistinctKeys(rows: seq<Row>) {
    forall i, j | 0 <= i < j < |rows| :: rows[i].key != rows[j].key
  }

  lemma {:induction false} UpdatedAt(rows: seq<Row>, key: string, tlvs: seq<Tlv>)
    ensures var i := IndexOf(rows, key);
            Updated(rows, key, tlvs) == if i < |rows| then rows[i := Row(key, tlvs)] else rows + [Row(key, tlvs)]
  {
    if rows == [] {
    } else if rows[0].key == key {
      assert Updated(rows, key, tlvs) == rows[0 := Row(key, tlvs)];
    } else {
      var i := IndexOf(rows[1..], key);
      UpdatedAt(rows[1..], key, tlvs);
      assert IndexOf(rows, key) == 1 + i;
      assert rows == [rows[0]] + rows[1..];
    }
  }

  /** What an insertion-ordered map promises of one update. */
  lemma UpdateIsMapUpdate(rows: seq<Row>, key: string, tlvs: seq<Tlv>)
    requires DistinctKeys(rows)
    ensures var after := Updated(rows, key, tlvs);
            && DistinctKeys(after)
            && IndexOf(after, key) < |after| && after[IndexOf(after, key)].tlvs == tlvs
            && |after| == |rows| + (if IndexOf(rows, key) < |rows| then 0 else 1)
            && (forall i | 0 <= i < |rows| ::
                  after[i].key == rows[i].key && (rows[i].key != key ==> after[i] == rows[i]))
  {
    UpdatedAt(rows, key, tlvs);
    var i := IndexOf(rows, key);
    if i == |rows| {
      OneAppended(rows, Row(key, tlvs));
    }
  }

  lemma OneAppended(rows: seq<Row>, row: Row)
    requires DistinctKeys(rows) && forall j | 0 <= j < |rows| :: rows[j].key != row.key
    ensures var after := rows + [row];
            DistinctKeys(after) && after[|rows|] == row && forall j | 0 <= j < |rows| :: after[j] == rows[j]
  {
  }

  function UpdatedAll(rows: seq<Row>, updates: seq<Row>): seq<Row> {
    if updates == [] then rows
    else var n := |updates| - 1; Updated(UpdatedAll(rows, updates[..n]), updates[n].key, updates[n].tlvs)
  }

  /** The last list given for a key, if any. */
  function LastFor(updates: seq<Row>, key: string): Option<seq<Tlv>> {
    if updates == [] then None
    else if updates[|updates| - 1].key == key then Some(updates[|updates| - 1].tlvs)
    else LastFor(updates[..|updates| - 1], key)
  }

  function Find(rows: seq<Row>, key: string): Option<seq<Tlv>> {
    var i := IndexOf(rows, key);
    if i < |rows| then Some(rows[i].tlvs) else None
  }

  lemma FindStep(first: Row, rest: seq<Row>, k: string)
    ensures Find([first] + rest, k) == if first.key == k then Some(first.tlvs) else Find(rest, k)
  {
    var rows := [first] + rest;
    assert rows[0] == first && rows[1..] == rest;
  }

  lemma {:induction false} FindUpdated(rows: seq<Row>, key: string, tlvs: seq<Tlv>, k: string)
    ensures Find(Updated(rows, key, tlvs), k) == if k == key then Some(tlvs) else Find(rows, k)
  {
    if rows == [] {
      assert Updated(rows, key, tlvs) == [Row(key, tlvs)] + [];
      FindStep(Row(key, tlvs), [], k);
    } else {
      assert rows == [rows[0]] + rows[1..];
      FindStep(rows[0], rows[1..], k);
      if rows[0].key == key {
        FindStep(Row(key, tlvs), rows[1..], k);
      } else {
        FindUpdated(rows[1..], key, tlvs, k);
        FindStep(rows[0], Updated(rows[1..], key, tlvs), k);
      }
    }
  }

  /** After any sequence of updates keys are distinct and each finds the last list stored for it. */
  lemma {:induction false} LastUpdateWins(rows: seq<Row>, updates: seq<Row>, key: string)
    requires DistinctKeys(rows)
    ensures var after := UpdatedAll(rows, updates);
            && DistinctKeys(after)
            && Find(after, key) == (if LastFor(updates, key).Some? then LastFor(updates, key) else Find(rows, key))
            && |rows| <= |after| && forall i | 0 <= i < |rows| :: after[i].key == rows[i].key
  {
    if updates != [] {
      var n := |updates| - 1;
      LastUpdateWins(rows, updates[..n], key);
      UpdateIsMapUpdate(UpdatedAll(rows, updates[..n]), updates[n].key, updates[n].tlvs);
      FindUpdated(UpdatedAll(rows, updates[..n]), updates[n].key, updates[n].tlvs, key);
    }
  }

  // ------------------------------------------------------------ the heap

  /** A malloc'ed record and how often it has been freed. */
  class Block {
    const tlv: Tlv
    var freed: nat

    constructor (tlv: Tlv)
      ensures freed == 0 && this.tlv == tlv
    {
      this.freed, this.tlv := 0, tlv;
    }
  }

  class ListNode {
    const diagTlv: Block
    var next: ListNode?
    var freed: nat

    constructor (tlv: Tlv)
      ensures freed == 0 && next == null
      ensures fresh(diagTlv) && diagTlv.freed == 0 && diagTlv.tlv == tlv
    {
      freed, next := 0, null;
      diagTlv := new Block(tlv);
    }
  }

  function BlocksOf(nodes: seq<ListNode>): set<Block> {
    set i | 0 <= i < |nodes| :: nodes[i].diagTlv
  }

  function Tlvs(nodes: seq<ListNode>): (t: seq<Tlv>)
    ensures |t| == |nodes| && forall i | 0 <= i < |nodes| :: t[i] == nodes[i].diagTlv.tlv
  {
    seq(|nodes|, i requires 0 <= i < |nodes| => nodes[i].diagTlv.tlv)
  }

  predicate Different(nodes: seq<ListNode>) {
    forall i, j | 0 <= i < j < |nodes| :: nodes[i] != nodes[j] && nodes[i].diagTlv != nodes[j].diagTlv
  }

  /** The list that starts at `head`, linked in order, nothing of it freed. */
  ghost predicate Live(head: ListNode?, nodes: seq<ListNode>)
    reads nodes, BlocksOf(nodes)
  {
    && head == (if nodes == [] then null else nodes[0])
    && (forall i | 0 <= i < |nodes| :: nodes[i].freed == 0 && nodes[i].diagTlv.freed == 0)
    && (forall i {:trigger nodes[i].next} | 0 <= i < |nodes| :: nodes[i].next == After(nodes, i))
  }

  /** Every node and record has been freed exactly once. */
  ghost predicate Gone(nodes: seq<ListNode>)
    reads nodes, BlocksOf(nodes)
  {
    forall i | 0 <= i < |nodes| :: nodes[i].freed == 1 && nodes[i].diagTlv.freed == 1
  }

  function After(nodes: seq<ListNode>, i: nat): ListNode?
    requires i < |nodes|
  {
    if i + 1 < |nodes| then nodes[i + 1] else null
  }

  /** append_thread_diagnosticTlv_list: the record goes behind the last node. */
  method AppendTlv(list: ListNode?, tlv: Tlv, ghost nodes: seq<ListNode>) returns (ret: int, ghost after: seq<ListNode>)
    requires Live(list, nodes) && Different(nodes)
    modifies nodes
    ensures list == null ==> ret == ESP_ERR_INVALID_ARG && after == nodes == []
    ensures list != null ==>
              && ret == ESP_OK && |after| == |nodes| + 1 && after[..|nodes|] == nodes
              && fresh(after[|nodes|]) && fresh(after[|nodes|].diagTlv)
              && Live(list, after) && Different(after) && Tlvs(after) == Tlvs(nodes) + [tlv]
  {
    if list == null {
      return ESP_ERR_INVALID_ARG, nodes;
    }
    var head := list;
    ghost var i := 0;
    while head.next != null
      invariant 0 <= i < |nodes| && head == nodes[i] && head.next == After(nodes, i)
      decreases |nodes| - i
    {
      head := head.next;
      i := i + 1;
    }
    var node := new ListNode(tlv);
    head.next := node;
    after := nodes + [node];
    ret := ESP_OK;
  }

  /** destroy_thread_diagnosticTlv_list: every node and record is freed, once, and none is read afterwards. */
  method DestroyList(list: ListNode?, ghost nodes: seq<ListNode>)
    requires Live(list, nodes) && Different(nodes)
    modifies nodes`freed, BlocksOf(nodes)`freed
    ensures Gone(nodes)
  {
    if list == null {
      return;
    }
    var pre := list;
    var next := list.next;
    ghost var i := 0;
    while next != null
      invariant 0 <= i < |nodes| && pre == nodes[i] && next == pre.next == After(nodes, i)
      invariant forall j | 0 <= j < |nodes| ::
                  nodes[j].freed == nodes[j].diagTlv.freed == if j < i then 1 else 0
      decreases |nodes| - i
    {
      FreeNode(pre, nodes, i);
      pre := next;
      next := pre.next;
      i := i + 1;
    }
    FreeNode(pre, nodes, i);
  }

  /** Frees the record of a list node, then the node. */
  method FreeNode(pre: ListNode, ghost nodes: seq<ListNode>, ghost i: nat)
    requires i < |nodes| && pre == nodes[i] && Different(nodes)
    requires pre.freed == 0 && pre.diagTlv.freed == 0
    modifies pre`freed, pre.diagTlv`freed
    ensures pre.freed == 1 && pre.diagTlv.freed == 1
    ensures forall j | 0 <= j < |nodes| && j != i ::
              nodes[j].freed == old(nodes[j].freed) && nodes[j].diagTlv.freed == old(nodes[j].diagTlv.freed)
  {
    pre.diagTlv.freed := pre.diagTlv.freed + 1;
    pre.freed := pre.freed + 1;
  }

  // ------------------------------------------------------------ the set of lists

  const RLOC_STRING_MAX_SIZE: nat := 7

  class SetNode {
    const rloc16: string
    var next: SetNode?
    var diagTlvNext: ListNode?
    var freed: nat

    /** initialize_thread_diagnosticTlv_set */
    constructor (rloc16: string)
      ensures freed == 0 && this.rloc16 == rloc16 && next == null && diagTlvNext == null
    {
      this.freed, this.rloc16, this.next, this.diagTlvNext := 0, rloc16, null, null;
    }
  }

  predicate Apart(x: seq<ListNode>, y: seq<ListNode>) {
    forall i, j | 0 <= i < |x| && 0 <= j < |y| :: x[i] != y[j] && x[i].diagTlv != y[j].diagTlv
  }

  /** The spine: live, different nodes, linked in order. */
  ghost predicate IsSpine(head: SetNode, nodes: seq<SetNode>)
    reads nodes
  {
    && nodes != [] && head == nodes[0]
    && (forall i | 0 <= i < |nodes| :: nodes[i].freed == 0)
    && (forall i {:trigger nodes[i].next} | 0 <= i < |nodes| :: nodes[i].next == Behind(nodes, i))
    && (forall i, j | 0 <= i < j < |nodes| :: nodes[i] != nodes[j])
  }

  function Behind(nodes: seq<SetNode>, i: nat): SetNode?
    requires i < |nodes|
  {
    if i + 1 < |nodes| then nodes[i + 1] else null
  }

  function AllNodes(lists: seq<seq<ListNode>>): set<ListNode> {
    set i, j | 0 <= i < |lists| && 0 <= j < |lists[i]| :: lists[i][j]
  }

  function AllBlocks(lists: seq<seq<ListNode>>): set<Block> {
    set i, j | 0 <= i < |lists| && 0 <= j < |lists[i]| :: lists[i][j].diagTlv
  }

  /** No node or record is in two lists, or twice in one. */
  predicate Disjoint(lists: seq<seq<ListNode>>) {
    && (forall i {:trigger Different(lists[i])} | 0 <= i < |lists| :: Different(lists[i]))
    && (forall i, j {:trigger Apart(lists[i], lists[j])} | 0 <= i < |lists| && 0 <= j < |lists| && i != j ::
          Apart(lists[i], lists[j]))
  }

  lemma InAll(lists: seq<seq<ListNode>>, i: nat)
    requires i < |lists|
    ensures forall j | 0 <= j < |lists[i]| :: lists[i][j] in AllNodes(lists) && lists[i][j].diagTlv in AllBlocks(lists)
  {
  }

  ghost predicate LiveAt(nodes: seq<SetNode>, lists: seq<seq<ListNode>>, i: nat)
    requires i < |nodes| == |lists|
    reads *
  {
    InAll(lists, i);
    Live(nodes[i].diagTlvNext, lists[i])
  }

  ghost predicate AllLive(nodes: seq<SetNode>, lists: seq<seq<ListNode>>)
    requires |nodes| == |lists|
    reads *
  {
    forall i | 0 <= i < |nodes| :: LiveAt(nodes, lists, i)
  }

  ghost predicate IsSet(head: SetNode, nodes: seq<SetNode>, lists: seq<seq<ListNode>>)
    reads *
  {
    IsSpine(head, nodes) && |nodes| == |lists| && Disjoint(lists) && AllLive(nodes, lists)
  }

  /** The map a set stands for. */
  function Rows(nodes: seq<SetNode>, lists: seq<seq<ListNode>>): (rows: seq<Row>)
    requires |nodes| == |lists|
    ensures |rows| == |nodes| && forall i | 0 <= i < |rows| :: rows[i] == Row(nodes[i].rloc16, Tlvs(lists[i]))
  {
    seq(|nodes|, i requires 0 <= i < |nodes| => Row(nodes[i].rloc16, Tlvs(lists[i])))
  }

  /** The first node whose key matches. */
  method SearchSet(head: SetNode, key: string, ghost nodes: seq<SetNode>) returns (node: SetNode?, ghost i: nat)
    requires IsSpine(head, nodes)
    ensures i <= |nodes| && forall j | 0 <= j < i :: nodes[j].rloc16 != key
    ensures if i < |nodes| then node == nodes[i] && nodes[i].rloc16 == key else node == null
    ensures node == null <==> forall j | 0 <= j < |nodes| :: nodes[j].rloc16 != key
  {
    node := head;
    i := 0;
    while node != null
      invariant i <= |nodes| && node == if i < |nodes| then nodes[i] else null
      invariant forall j | 0 <= j < i :: nodes[j].rloc16 != key
      decreases |nodes| - i
    {
      if node.rloc16 == key {
        return;
      }
      assert node.next == Behind(nodes, i);
      node := node.next;
      i := i + 1;
    }
  }

  method LastNode(head: SetNode, ghost nodes: seq<SetNode>) returns (last: SetNode)
    requires IsSpine(head, nodes)
    ensures last == nodes[|nodes| - 1]
  {
    last := head;
    ghost var i := 0;
    while last.next != null
      invariant 0 <= i < |nodes| && last == nodes[i] && last.next == Behind(nodes, i)
      decreases |nodes| - i
    {
      last := last.next;
      i := i + 1;
    }
  }

  /** Each list as it stood, live from its head or gone. */
  ghost predicate Standing(head: ListNode?, nodes: seq<ListNode>, gone: bool)
    reads nodes, BlocksOf(nodes)
  {
    if gone then Gone(nodes) else Live(head, nodes)
  }

  /** Freeing one of several disjoint lists leaves the others as they stand. */
  method DestroyAt(list: ListNode?, ghost lists: seq<seq<ListNode>>, ghost at: nat, ghost heads: seq<ListNode?>,
                   ghost gone: nat)
    requires at < |lists| == |heads| && gone <= at && Disjoint(lists) && Live(list, lists[at])
    requires forall i | 0 <= i < |lists| && i != at :: Standing(heads[i], lists[i], i < gone)
    modifies lists[at]`freed, BlocksOf(lists[at])`freed
    ensures Gone(lists[at])
    ensures forall i | 0 <= i < |lists| && i != at :: Standing(heads[i], lists[i], i < gone)
  {
    DestroyList(list, lists[at]);
    forall i | 0 <= i < |lists| && i != at
      ensures Standing(heads[i], lists[i], i < gone)
    {
      assert old(Standing(heads[i], lists[i], i < gone));
      assert Apart(lists[i], lists[at]);
    }
  }

  /** The list heads, node by node. */
  lemma {:induction false} HeadsOf(nodes: seq<SetNode>) returns (heads: seq<ListNode?>)
    ensures |heads| == |nodes| && forall i | 0 <= i < |nodes| :: heads[i] == nodes[i].diagTlvNext
  {
    heads := [];
    if nodes != [] {
      heads := HeadsOf(nodes[..|nodes| - 1]);
      heads := heads + [nodes[|nodes| - 1].diagTlvNext];
    }
  }

  lemma DisjointReplaced(lists: seq<seq<ListNode>>, x: seq<ListNode>, at: nat)
    requires Disjoint(lists + [x]) && at < |lists|
    ensures Disjoint(lists[at := x])
  {
    var all, after := lists + [x], lists[at := x];
    assert all[|lists|] == x;
    forall i, j | 0 <= i < |after| && 0 <= j < |after| && i != j
      ensures Apart(after[i], after[j])
    {
      var i', j' := if i == at then |lists| else i, if j == at then |lists| else j;
      assert after[i] == all[i'] && after[j] == all[j'];
    }
    forall i | 0 <= i < |after|
      ensures Different(after[i])
    {
      assert after[i] == all[if i == at then |lists| else i];
    }
  }

  /** All the lists in use, and the new one, seen from their heads. */
  lemma AllStand(nodes: seq<SetNode>, lists: seq<seq<ListNode>>, list: ListNode?, newList: seq<ListNode>)
    returns (heads: seq<ListNode?>)
    requires |nodes| == |lists| && Live(list, newList) && AllLive(nodes, lists)
    ensures |heads| == |lists| + 1 && heads[|lists|] == list
            && forall i | 0 <= i < |nodes| :: heads[i] == nodes[i].diagTlvNext
    ensures var all := lists + [newList];
            forall i | 0 <= i < |all| :: Standing(heads[i], all[i], false)
  {
    heads := HeadsOf(nodes);
    heads := heads + [list];
    var all := lists + [newList];
    forall i | 0 <= i < |all|
      ensures Standing(heads[i], all[i], false)
    {
      if i < |lists| { assert LiveAt(nodes, lists, i); }
    }
  }

  /** The match branch: the old list is freed, the new one takes its place. */
  method ReplaceList(node: SetNode, list: ListNode?, ghost nodes: seq<SetNode>, ghost lists: seq<seq<ListNode>>,
                     ghost at: nat, ghost newList: seq<ListNode>)
    requires |nodes| == |lists| && at < |nodes| && node == nodes[at]
    requires forall i, j | 0 <= i < j < |nodes| :: nodes[i] != nodes[j]
    requires AllLive(nodes, lists) && Live(list, newList) && Disjoint(lists + [newList])
    modifies node`diagTlvNext, lists[at]`freed, BlocksOf(lists[at])`freed
    ensures AllLive(nodes, lists[at := newList])
    ensures Gone(lists[at])
  {
    ghost var all := lists + [newList];
    ghost var heads := AllStand(nodes, lists, list, newList);
    assert all[at] == lists[at] && Standing(heads[at], all[at], false);
    DestroyAt(node.diagTlvNext, all, at, heads, 0);
    PointTo(node, list, all, at, heads);
  }

  /** Hanging a list on a set node changes no list. */
  method PointTo(node: SetNode, list: ListNode?, ghost all: seq<seq<ListNode>>, ghost at: nat,
                 ghost heads: seq<ListNode?>)
    requires at < |all| == |heads| && Gone(all[at])
    requires forall i | 0 <= i < |all| && i != at :: Standing(heads[i], all[i], false)
    modifies node`diagTlvNext
    ensures node.diagTlvNext == list && Gone(all[at])
    ensures forall i | 0 <= i < |all| && i != at :: Standing(heads[i], all[i], false)
  {
    node.diagTlvNext := list;
    forall i | 0 <= i < |all| && i != at
      ensures Standing(heads[i], all[i], false)
    {
      assert old(Standing(heads[i], all[i], false));
    }
  }

  method NewSetNode(rloc16: string, list: ListNode?, ghost all: seq<seq<ListNode>>, ghost heads: seq<ListNode?>)
    returns (node: SetNode)
    requires |all| == |heads| && forall i | 0 <= i < |all| :: Standing(heads[i], all[i], false)
    ensures fresh(node) && node.rloc16 == rloc16 && node.diagTlvNext == list && node.next == null && node.freed == 0
    ensures forall i | 0 <= i < |all| :: Standing(heads[i], all[i], false)
  {
    node := new SetNode(rloc16);
    node.diagTlvNext := list;
    forall i | 0 <= i < |all|
      ensures Standing(heads[i], all[i], false)
    {
      assert old(Standing(heads[i], all[i], false));
    }
  }

  /** Finds the last set node and links the new one behind it. */
  method AppendNode(head: SetNode, node: SetNode, ghost nodes: seq<SetNode>,
                    ghost all: seq<seq<ListNode>>, ghost heads: seq<ListNode?>)
    requires IsSpine(head, nodes) && node !in nodes && node.next == null && node.freed == 0
    requires |all| == |heads| && forall i | 0 <= i < |all| :: Standing(heads[i], all[i], false)
    modifies nodes`next
    ensures IsSpine(head, nodes + [node])
    ensures forall i | 0 <= i < |all| :: Standing(heads[i], all[i], false)
  {
    var last := LastNode(head, nodes);
    LinkBehind(last, node, all, heads);
    SpineGrows(nodes, node);
  }

  /** The mismatch branch: a new node goes behind the last one. */
  method AppendList(rloc16: string, list: ListNode?, head: SetNode, ghost nodes: seq<SetNode>,
                    ghost lists: seq<seq<ListNode>>, ghost newList: seq<ListNode>) returns (ghost after: seq<SetNode>)
    requires IsSpine(head, nodes) && |nodes| == |lists| && AllLive(nodes, lists) && Live(list, newList)
    modifies nodes`next
    ensures |after| == |nodes| + 1 && after[..|nodes|] == nodes && fresh(after[|nodes|])
            && after[|nodes|].rloc16 == rloc16
    ensures nodes <= after
    ensures IsSpine(head, after) && AllLive(after, lists + [newList])
  {
    ghost var heads := AllStand(nodes, lists, list, newList);
    var node := NewSetNode(rloc16, list, lists + [newList], heads);
    AppendNode(head, node, nodes, lists + [newList], heads);
    after := nodes + [node];
    LiveFromHeads(after, lists + [newList], heads);
  }

  lemma SpineGrows(nodes: seq<SetNode>, node: SetNode)
    requires nodes != [] && node !in nodes && node.freed == 0 && node.next == null
    requires forall i | 0 <= i < |nodes| :: nodes[i].freed == 0
    requires forall i | 0 <= i < |nodes| - 1 :: nodes[i].next == nodes[i + 1]
    requires forall i, j | 0 <= i < j < |nodes| :: nodes[i] != nodes[j]
    requires nodes[|nodes| - 1].next == node
    ensures IsSpine(nodes[0], nodes + [node])
  {
  }

  lemma LiveFromHeads(nodes: seq<SetNode>, lists: seq<seq<ListNode>>, heads: seq<ListNode?>)
    requires |nodes| == |lists| == |heads|
    requires forall i | 0 <= i < |nodes| :: nodes[i].diagTlvNext == heads[i] && Standing(heads[i], lists[i], false)
    ensures AllLive(nodes, lists)
  {
    forall i | 0 <= i < |nodes|
      ensures LiveAt(nodes, lists, i)
    {
      assert Standing(heads[i], lists[i], false);
    }
  }

  /** Linking a set node behind another changes no list. */
  method LinkBehind(last: SetNode, node: SetNode, ghost all: seq<seq<ListNode>>, ghost heads: seq<ListNode?>)
    requires |all| == |heads| && forall i | 0 <= i < |all| :: Standing(heads[i], all[i], false)
    modifies last`next
    ensures last.next == node
    ensures forall i | 0 <= i < |all| :: Standing(heads[i], all[i], false)
  {
    last.next := node;
    forall i | 0 <= i < |all|
      ensures Standing(heads[i], all[i], false)
    {
      assert old(Standing(heads[i], all[i], false));
    }
  }

  /**
   * update_thread_diagnosticTlv_set refines the map update: order and all
   * other entries stay, only the replaced list is freed, and that once.
   */
  method UpdateSet(first: SetNode?, rloc16: string, list: ListNode?, ghost nodes: seq<SetNode>,
                   ghost lists: seq<seq<ListNode>>, ghost newList: seq<ListNode>)
    returns (ret: int, ghost nodes': seq<SetNode>, ghost lists': seq<seq<ListNode>>)
    requires if first == null then nodes == [] && lists == [] else IsSet(first, nodes, lists)
    requires |rloc16| < RLOC_STRING_MAX_SIZE
    requires Live(list, newList) && Disjoint(lists + [newList])
    modifies nodes`next, nodes`diagTlvNext, AllNodes(lists)`freed, AllBlocks(lists)`freed
    ensures first == null ==> ret == ESP_ERR_INVALID_ARG && nodes' == nodes && lists' == lists
    ensures first != null ==>
              var at := IndexOf(Rows(nodes, lists), rloc16);
              && ret == ESP_OK && IsSet(first, nodes', lists')
              && Rows(nodes', lists') == Updated(Rows(nodes, lists), rloc16, Tlvs(newList))
              && lists' == (if at < |nodes| then lists[at := newList] else lists + [newList])
              && (at < |nodes| ==> nodes' == nodes && Gone(lists[at]))
              && (at == |nodes| ==> |nodes'| == |nodes| + 1)
    ensures nodes <= nodes' && forall i | |nodes| <= i < |nodes'| :: fresh(nodes'[i])
  {
    if first == null {
      return ESP_ERR_INVALID_ARG, nodes, lists;
    }
    nodes', lists' := UpdateLive(first, rloc16, list, nodes, lists, newList);
    ret := ESP_OK;
  }

  method UpdateLive(head: SetNode, rloc16: string, list: ListNode?, ghost nodes: seq<SetNode>,
                    ghost lists: seq<seq<ListNode>>, ghost newList: seq<ListNode>)
    returns (ghost nodes': seq<SetNode>, ghost lists': seq<seq<ListNode>>)
    requires IsSet(head, nodes, lists) && |rloc16| < RLOC_STRING_MAX_SIZE
    requires Live(list, newList) && Disjoint(lists + [newList])
    modifies nodes`next, nodes`diagTlvNext, AllNodes(lists)`freed, AllBlocks(lists)`freed
    ensures IsSet(head, nodes', lists')
    ensures Rows(nodes', lists') == Updated(Rows(nodes, lists), rloc16, Tlvs(newList))
    ensures var at := IndexOf(Rows(nodes, lists), rloc16);
            && lists' == (if at < |nodes| then lists[at := newList] else lists + [newList])
            && (if at < |nodes| then nodes' == nodes && Gone(lists[at]) else |nodes'| == |nodes| + 1)
    ensures nodes <= nodes' && forall i | |nodes| <= i < |nodes'| :: fresh(nodes'[i])
  {
    var node, at := SearchSet(head, rloc16, nodes);
    FoundRow(nodes, lists, rloc16, at);
    if node == null {
      nodes' := AddNode(head, rloc16, list, nodes, lists, newList);
      lists' := lists + [newList];
    } else {
      InAll(lists, at);
      UpdateNode(node, list, head, nodes, lists, at, newList);
      nodes', lists' := nodes, lists[at := newList];
    }
  }

  /** The mismatch branch, seen from the whole set. */
  method AddNode(head: SetNode, rloc16: string, list: ListNode?, ghost nodes: seq<SetNode>,
                 ghost lists: seq<seq<ListNode>>, ghost newList: seq<ListNode>) returns (ghost after: seq<SetNode>)
    requires IsSet(head, nodes, lists) && IndexOf(Rows(nodes, lists), rloc16) == |nodes|
    requires Live(list, newList) && Disjoint(lists + [newList])
    modifies nodes`next
    ensures IsSet(head, after, lists + [newList])
    ensures Rows(after, lists + [newList]) == Updated(Rows(nodes, lists), rloc16, Tlvs(newList))
    ensures |after| == |nodes| + 1 && nodes <= after && forall i | |nodes| <= i < |after| :: fresh(after[i])
  {
    after := AppendList(rloc16, list, head, nodes, lists, newList);
    assert Rows(after, lists + [newList]) == Updated(Rows(nodes, lists), rloc16, Tlvs(newList)) by {
      RowsAppended(nodes, lists, after, newList, rloc16);
    }
  }

  /** The match branch, seen from the whole set. */
  method UpdateNode(node: SetNode, list: ListNode?, head: SetNode, ghost nodes: seq<SetNode>,
                    ghost lists: seq<seq<ListNode>>, ghost at: nat, ghost newList: seq<ListNode>)
    requires IsSet(head, nodes, lists) && at < |nodes| && node == nodes[at]
    requires Live(list, newList) && Disjoint(lists + [newList])
    modifies node`diagTlvNext, lists[at]`freed, BlocksOf(lists[at])`freed
    ensures IsSet(head, nodes, lists[at := newList]) && Gone(lists[at])
    ensures IndexOf(Rows(nodes, lists), node.rloc16) == at ==>
              Rows(nodes, lists[at := newList]) == Updated(Rows(nodes, lists), node.rloc16, Tlvs(newList))
  {
    ReplaceList(node, list, nodes, lists, at, newList);
    assert Disjoint(lists[at := newList]) by {
      DisjointReplaced(lists, newList, at);
    }
    assert IndexOf(Rows(nodes, lists), node.rloc16) == at ==>
             Rows(nodes, lists[at := newList]) == Updated(Rows(nodes, lists), node.rloc16, Tlvs(newList)) by {
      if IndexOf(Rows(nodes, lists), node.rloc16) == at {
        RowsReplaced(nodes, lists, at, newList, node.rloc16);
      }
    }
  }

  lemma FoundRow(nodes: seq<SetNode>, lists: seq<seq<ListNode>>, key: string, at: nat)
    requires |nodes| == |lists| && at <= |nodes|
    requires (forall j | 0 <= j < at :: nodes[j].rloc16 != key) && (at < |nodes| ==> nodes[at].rloc16 == key)
    ensures IndexOf(Rows(nodes, lists), key) == at
  {
    var rows := Rows(nodes, lists);
    assert forall j | 0 <= j < at :: rows[j].key != key;
    assert at < |nodes| ==> rows[at].key == key;
  }

  lemma RowsReplaced(nodes: seq<SetNode>, lists: seq<seq<ListNode>>, at: nat, newList: seq<ListNode>, key: string)
    requires at < |nodes| == |lists| && nodes[at].rloc16 == key && IndexOf(Rows(nodes, lists), key) == at
    ensures Rows(nodes, lists[at := newList]) == Updated(Rows(nodes, lists), key, Tlvs(newList))
  {
    UpdatedAt(Rows(nodes, lists), key, Tlvs(newList));
    assert Rows(nodes, lists[at := newList]) == Rows(nodes, lists)[at := Row(key, Tlvs(newList))];
  }

  lemma RowsAppended(nodes: seq<SetNode>, lists: seq<seq<ListNode>>, after: seq<SetNode>, newList: seq<ListNode>,
                     key: string)
    requires |nodes| == |lists| && |after| == |nodes| + 1 && after[..|nodes|] == nodes && after[|nodes|].rloc16 == key
    requires IndexOf(Rows(nodes, lists), key) == |nodes|
    ensures Rows(after, lists + [newList]) == Updated(Rows(nodes, lists), key, Tlvs(newList))
  {
    UpdatedAt(Rows(nodes, lists), key, Tlvs(newList));
    assert forall i | 0 <= i < |nodes| :: after[i] == after[..|nodes|][i];
    assert Rows(after, lists + [newList]) == Rows(nodes, lists) + [Row(key, Tlvs(newList))];
  }

  /** destroy_thread_diagnosticTlv_set: every node, list node and record is freed, once. */
  method DestroySet(head: SetNode?, ghost nodes: seq<SetNode>, ghost lists: seq<seq<ListNode>>)
    requires if head == null then nodes == [] && lists == [] else IsSet(head, nodes, lists)
    modifies nodes`freed, nodes`diagTlvNext, AllNodes(lists)`freed, AllBlocks(lists)`freed
    ensures forall i | 0 <= i < |nodes| :: nodes[i].freed == 1 && GoneAt(lists, i)
  {
    if head == null {
      return;
    }
    var pre := head;
    var next := head.next;
    ghost var i := 0;
    while next != null
      invariant 0 <= i < |nodes| && pre == nodes[i] && next == pre.next == Behind(nodes, i)
      invariant PartlyGone(nodes, lists, i)
      invariant forall j {:trigger nodes[j].next} | 0 <= j < |nodes| :: nodes[j].next == Behind(nodes, j)
      invariant forall j | 0 <= j < |nodes| :: nodes[j].freed == if j < i then 1 else 0
      invariant forall j, k | 0 <= j < k < |nodes| :: nodes[j] != nodes[k]
      decreases |nodes| - i
    {
      InAll(lists, i);
      DestroyNode(pre, nodes, lists, i);
      pre := next;
      next := pre.next;
      i := i + 1;
    }
    InAll(lists, i);
    DestroyNode(pre, nodes, lists, i);
  }

  ghost predicate GoneAt(lists: seq<seq<ListNode>>, i: nat)
    requires i < |lists|
    reads *
  {
    InAll(lists, i);
    Gone(lists[i])
  }

  /** The first n lists are gone, the others live from their nodes. */
  ghost predicate PartlyGone(nodes: seq<SetNode>, lists: seq<seq<ListNode>>, n: nat)
    reads *
  {
    && |nodes| == |lists| && n <= |nodes| && Disjoint(lists)
    && (forall i | n <= i < |nodes| :: LiveAt(nodes, lists, i))
    && (forall i | 0 <= i < n :: GoneAt(lists, i))
  }

  /** Frees the list of a set node, clears its pointer, and frees the node. */
  method DestroyNode(pre: SetNode, ghost nodes: seq<SetNode>, ghost lists: seq<seq<ListNode>>, ghost n: nat)
    requires n < |nodes| && pre == nodes[n] && PartlyGone(nodes, lists, n)
    requires forall i, j | 0 <= i < j < |nodes| :: nodes[i] != nodes[j]
    modifies pre`freed, pre`diagTlvNext, lists[n]`freed, BlocksOf(lists[n])`freed
    ensures PartlyGone(nodes, lists, n + 1)
    ensures pre.freed == old(pre.freed) + 1
  {
    assert LiveAt(nodes, lists, n);
    ghost var heads := ListsStand(nodes, lists, n);
    DestroyAt(pre.diagTlvNext, lists, n, heads, n);
    FreeSetNode(pre, lists, n, heads);
    OneMoreGone(nodes, lists, n, heads);
  }

  method FreeSetNode(pre: SetNode, ghost lists: seq<seq<ListNode>>, ghost n: nat, ghost heads: seq<ListNode?>)
    requires n < |lists| == |heads| && Gone(lists[n])
    requires forall i | 0 <= i < |lists| && i != n :: Standing(heads[i], lists[i], i < n)
    modifies pre`freed, pre`diagTlvNext
    ensures pre.freed == old(pre.freed) + 1 && pre.diagTlvNext == null && Gone(lists[n])
    ensures forall i | 0 <= i < |lists| && i != n :: Standing(heads[i], lists[i], i < n)
  {
    pre.diagTlvNext := null;
    pre.freed := pre.freed + 1;
    forall i | 0 <= i < |lists| && i != n
      ensures Standing(heads[i], lists[i], i < n)
    {
      assert old(Standing(heads[i], lists[i], i < n));
    }
  }

  lemma ListsStand(nodes: seq<SetNode>, lists: seq<seq<ListNode>>, n: nat) returns (heads: seq<ListNode?>)
    requires n < |nodes| && PartlyGone(nodes, lists, n)
    ensures |heads| == |nodes| && forall i | 0 <= i < |nodes| :: heads[i] == nodes[i].diagTlvNext
    ensures forall i | 0 <= i < |lists| && i != n :: Standing(heads[i], lists[i], i < n)
  {
    heads := HeadsOf(nodes);
    forall i | 0 <= i < |lists| && i != n
      ensures Standing(heads[i], lists[i], i < n)
    {
      if i < n { assert GoneAt(lists, i); } else { assert LiveAt(nodes, lists, i); }
    }
  }

  lemma OneMoreGone(nodes: seq<SetNode>, lists: seq<seq<ListNode>>, n: nat, heads: seq<ListNode?>)
    requires n < |nodes| == |lists| == |heads| && Disjoint(lists) && Gone(lists[n])
    requires forall i | 0 <= i < |lists| && i != n :: Standing(heads[i], lists[i], i < n)
    requires forall i | n < i < |nodes| :: heads[i] == nodes[i].diagTlvNext
    ensures PartlyGone(nodes, lists, n + 1)
  {
    forall i | 0 <= i < n + 1
      ensures GoneAt(lists, i)
    {
      if i < n { assert Standing(heads[i], lists[i], true); }
    }
    forall i | n + 1 <= i < |nodes|
      ensures LiveAt(nodes, lists, i)
    {
      assert Standing(heads[i], lists[i], false);
    }
  }
}
