/**
 * The paged walk through a remote neighbor or binding table (cli_cmd_zdo.c):
 * each reply prints its entries and either asks for the next page, reusing the
 * same request, or notifies the console and frees the request.
 */
module TableWalk {
  import opened Common

  /** One reply; the neighbor and the binding response carry the same four numbers. */
  datatype Page = Page(status: byte, start: byte, count: byte, total: byte)

  const SUCCESS: byte := 0

  datatype Walk = Walk(startIndex: byte, asked: seq<byte>, printed: seq<int>, notified: nat, freed: nat)

  /** The request as the command first sends it. */
  const FIRST_REQUEST := Walk(0, [0], [], 0, 0)

  predicate Open(w: Walk) {
    w.freed == 0
  }

  /** start, start + 1, ..., start + count - 1 */
  function Range(start: int, count: nat): (r: seq<int>)
    ensures |r| == count && forall i | 0 <= i < count :: r[i] == start + i
  {
    seq(count, i => start + i)
  }

  function OnPage(w: Walk, page: Page): Walk {
    if page.status != SUCCESS then w.(notified := w.notified + 1, freed := w.freed + 1)
    else
      var printed := w.printed + Range(page.start, page.count);
      if page.start + page.count < page.total then
        var next := (page.start + page.count) % 0x100;
        w.(startIndex := next, asked := w.asked + [next], printed := printed)
      else
        w.(printed := printed, notified := w.notified + 1, freed := w.freed + 1)
  }

  /** The request object that travels through the callbacks as user_ctx. */
  class TableRequest {
    var startIndex: byte
    var asked: seq<byte>
    var printed: seq<int>
    var notified: nat
    var freed: nat

    constructor ()
      ensures View() == FIRST_REQUEST
    {
      startIndex, asked, printed, notified, freed := 0, [0], [], 0, 0;
    }

    function View(): Walk
      reads this
    {
      Walk(startIndex, asked, printed, notified, freed)
    }

    method PrintTable(page: Page)
      modifies this`printed
      ensures printed == old(printed) + Range(page.start, page.count)
    {
      var i := 0;
      while i < page.count
        invariant 0 <= i <= page.count
        invariant printed == old(printed) + Range(page.start, page.count)[..i]
      {
        printed := printed + [page.start + i];
        i := i + 1;
      }
    }

    /** cli_zdo_neighbor_table_cb and cli_zdo_binding_table_cb; never called on a freed request. */
    method TableCallback(page: Page)
      requires Open(View())
      modifies this
      ensures View() == OnPage(old(View()), page)
      ensures printed == old(printed) + if page.status == SUCCESS then Range(page.start, page.count) else []
      ensures page.status == SUCCESS && page.start + page.count < page.total ==>
                && startIndex == page.start + page.count && asked == old(asked) + [startIndex]
                && notified == old(notified) && freed == old(freed)
      ensures page.status != SUCCESS || page.start + page.count >= page.total ==>
                && startIndex == old(startIndex) && asked == old(asked)
                && notified == old(notified) + 1 && freed == old(freed) + 1
    {
      var done := true;
      if page.status == SUCCESS {
        PrintTable(page);
        if page.start + page.count < page.total {
          startIndex := (page.start + page.count) % 0x100;
          asked := asked + [startIndex];
          done := false;
        }
      }
      if done {
        notified := notified + 1;
        freed := freed + 1;
      }
    }
  }

  /** The first n callbacks of a walk whose k-th reply is peer(k); a freed request gets no more of them. */
  function Callbacks(w: Walk, peer: nat -> Page, k: nat, n: nat): Walk
    decreases n
  {
    if n == 0 || !Open(w) then w else Callbacks(OnPage(w, peer(k)), peer, k + 1, n - 1)
  }

  lemma {:induction false} CallbacksSplit(w: Walk, peer: nat -> Page, k: nat, a: nat, b: nat)
    ensures Callbacks(w, peer, k, a + b) == Callbacks(Callbacks(w, peer, k, a), peer, k + a, b)
    decreases a
  {
    if a > 0 && Open(w) {
      CallbacksSplit(OnPage(w, peer(k)), peer, k + 1, a - 1, b);
      assert k + 1 + (a - 1) == k + a;
    }
  }

  lemma OneMoreCallback(w: Walk, peer: nat -> Page, k: nat, n: nat)
    ensures var v := Callbacks(w, peer, k, n);
            Callbacks(w, peer, k, n + 1) == if Open(v) then OnPage(v, peer(k + n)) else v
  {
    CallbacksSplit(w, peer, k, n, 1);
    var v := Callbacks(w, peer, k, n);
    if Open(v) {
      assert Callbacks(v, peer, k + n, 1) == Callbacks(OnPage(v, peer(k + n)), peer, k + n + 1, 0);
    }
  }

  // ------------------------------------------------------------ peers that answer what is asked

  /** A reply that reports success starts at the index asked for. */
  predicate Echoes(w: Walk, page: Page) {
    page.status == SUCCESS ==> page.start == w.startIndex
  }

  predicate EchoesAt(w: Walk, peer: nat -> Page, k: nat, n: nat) {
    Open(Callbacks(w, peer, k, n)) ==> Echoes(Callbacks(w, peer, k, n), peer(k + n))
  }

  ghost predicate EchoesFrom(w: Walk, peer: nat -> Page, k: nat) {
    forall n: nat :: EchoesAt(w, peer, k, n)
  }

  /** A successful reply without entries, while some are left. */
  predicate IsEmpty(page: Page) {
    page.status == SUCCESS && page.count == 0 && page.start < page.total
  }

  /** How many of the replies k, ..., k + n - 1 are such. */
  function Empties(peer: nat -> Page, k: nat, n: nat): (e: nat)
    ensures e <= n
  {
    if n == 0 then 0 else Empties(peer, k, n - 1) + if IsEmpty(peer(k + n - 1)) then 1 else 0
  }

  /** While the request is open everything below the index asked for has been printed, once each and in order. */
  predicate Good(w: Walk) {
    && Open(w) && w.notified == 0
    && w.printed == Range(0, w.startIndex)
    && w.asked != [] && w.asked[|w.asked| - 1] == w.startIndex
    && forall i | 0 < i < |w.asked| :: w.asked[i - 1] <= w.asked[i]
  }

  /**
   * What a walk leaves behind: indices 0..m-1 once each, in order; one
   * notification; one free; no request goes back.
   */
  predicate Finished(w: Walk, m: nat) {
    && w.printed == Range(0, m)
    && w.notified == 1 && w.freed == 1
    && forall i | 0 < i < |w.asked| :: w.asked[i - 1] <= w.asked[i]
  }

  lemma OnePage(w: Walk, page: Page)
    requires Good(w) && Echoes(w, page)
    ensures var v := OnPage(w, page);
            if Open(v) then
              && Good(v) && v.startIndex < 0xFF && v.asked == w.asked + [v.startIndex]
              && if IsEmpty(page) then v.startIndex == w.startIndex else w.startIndex < v.startIndex
            else
              && v.asked == w.asked
              && if page.status == SUCCESS then
                page.start + page.count >= page.total && Finished(v, page.start + page.count)
              else Finished(v, w.startIndex)
  {
    var v := OnPage(w, page);
    if page.status == SUCCESS {
      assert v.printed == Range(0, page.start + page.count);
    }
  }

  /** Every reply either raises the index asked for, or is empty: so an open walk has had at most so many. */
  lemma {:induction false} OpenWalk(w: Walk, peer: nat -> Page, k: nat, n: nat)
    requires Good(w) && EchoesFrom(w, peer, k)
    ensures var v := Callbacks(w, peer, k, n);
            Open(v) ==>
              && Good(v) && w.startIndex + n <= v.startIndex + Empties(peer, k, n)
              && (n > 0 ==> v.startIndex < 0xFF)
  {
    if n > 0 {
      OpenWalk(w, peer, k, n - 1);
      OneMoreCallback(w, peer, k, n - 1);
      var v := Callbacks(w, peer, k, n - 1);
      assert EchoesAt(w, peer, k, n - 1);
      if Open(v) {
        assert k + (n - 1) == k + n - 1;
        OnePage(v, peer(k + n - 1));
      }
    }
  }

  /** At most 254 replies that leave the walk open are not empty ones, however many empty ones come between. */
  lemma WalkIsBounded(peer: nat -> Page, n: nat)
    requires EchoesFrom(FIRST_REQUEST, peer, 0) && n > 0xFE + Empties(peer, 0, n)
    ensures !Open(Callbacks(FIRST_REQUEST, peer, 0, n))
  {
    assert FIRST_REQUEST.printed == Range(0, 0);
    OpenWalk(FIRST_REQUEST, peer, 0, n);
  }

  // ------------------------------------------------------------ exactly when a walk ends

  ghost predicate OpenForEver(w: Walk, peer: nat -> Page, k: nat) {
    forall n: nat :: Open(Callbacks(w, peer, k, n))
  }

  /** From reply m on every one is empty. */
  ghost predicate EmptyFrom(peer: nat -> Page, m: nat) {
    forall j: nat | j >= m :: IsEmpty(peer(j))
  }

  /** A walk still open when the replies dry up. */
  ghost predicate DriesUp(peer: nat -> Page, m: nat) {
    Open(Callbacks(FIRST_REQUEST, peer, 0, m)) && EmptyFrom(peer, m)
  }

  /** Empty pages are asked for again and again. */
  lemma {:induction false} EmptyPagesNeverEnd(w: Walk, peer: nat -> Page, k: nat, n: nat)
    requires Open(w) && EmptyFrom(peer, k)
    ensures var v := Callbacks(w, peer, k, n);
            Open(v) && v.notified == w.notified && v.printed == w.printed && |v.asked| == |w.asked| + n
    decreases n
  {
    if n > 0 {
      assert IsEmpty(peer(k));
      assert w.printed + Range(peer(k).start, 0) == w.printed;
      EmptyPagesNeverEnd(OnPage(w, peer(k)), peer, k + 1, n - 1);
    }
  }

  lemma ClosedStays(w: Walk, peer: nat -> Page, k: nat, n: nat, m: nat)
    requires n <= m && Open(Callbacks(w, peer, k, m))
    ensures Open(Callbacks(w, peer, k, n))
  {
    CallbacksSplit(w, peer, k, n, m - n);
  }

  lemma DryWalkStaysOpen(peer: nat -> Page, m: nat)
    requires DriesUp(peer, m)
    ensures OpenForEver(FIRST_REQUEST, peer, 0)
  {
    forall n: nat
      ensures Open(Callbacks(FIRST_REQUEST, peer, 0, n))
    {
      if n <= m {
        ClosedStays(FIRST_REQUEST, peer, 0, n, m);
      } else {
        CallbacksSplit(FIRST_REQUEST, peer, 0, m, n - m);
        EmptyPagesNeverEnd(Callbacks(FIRST_REQUEST, peer, 0, m), peer, m, n - m);
      }
    }
  }

  /** A walk that never closes raises its index a last time; behind that reply all are empty. */
  lemma {:induction false} LastRise(peer: nat -> Page, m: nat) returns (last: nat)
    requires EchoesFrom(FIRST_REQUEST, peer, 0) && OpenForEver(FIRST_REQUEST, peer, 0)
    ensures EmptyFrom(peer, last)
    decreases 0x100 - Callbacks(FIRST_REQUEST, peer, 0, m).startIndex
  {
    last := m;
    if !EmptyFrom(peer, m) {
      var j: nat :| j >= m && !IsEmpty(peer(j));
      Rises(peer, m, j);
      last := LastRise(peer, j + 1);
    }
  }

  lemma {:induction false} Rises(peer: nat -> Page, m: nat, j: nat)
    requires EchoesFrom(FIRST_REQUEST, peer, 0) && OpenForEver(FIRST_REQUEST, peer, 0) && m <= j && !IsEmpty(peer(j))
    ensures Callbacks(FIRST_REQUEST, peer, 0, m).startIndex < Callbacks(FIRST_REQUEST, peer, 0, j + 1).startIndex
  {
    NeverFalls(peer, m, j);
    OneStep(peer, j);
  }

  lemma OneStep(peer: nat -> Page, n: nat)
    requires EchoesFrom(FIRST_REQUEST, peer, 0) && OpenForEver(FIRST_REQUEST, peer, 0)
    ensures var v, u := Callbacks(FIRST_REQUEST, peer, 0, n), Callbacks(FIRST_REQUEST, peer, 0, n + 1);
            if IsEmpty(peer(n)) then u.startIndex == v.startIndex else v.startIndex < u.startIndex
  {
    assert FIRST_REQUEST.printed == Range(0, 0);
    OpenWalk(FIRST_REQUEST, peer, 0, n);
    OneMoreCallback(FIRST_REQUEST, peer, 0, n);
    assert EchoesAt(FIRST_REQUEST, peer, 0, n);
    assert Open(Callbacks(FIRST_REQUEST, peer, 0, n)) && Open(Callbacks(FIRST_REQUEST, peer, 0, n + 1));
    OnePage(Callbacks(FIRST_REQUEST, peer, 0, n), peer(n));
  }

  lemma {:induction false} NeverFalls(peer: nat -> Page, m: nat, j: nat)
    requires EchoesFrom(FIRST_REQUEST, peer, 0) && OpenForEver(FIRST_REQUEST, peer, 0) && m <= j
    ensures Callbacks(FIRST_REQUEST, peer, 0, m).startIndex <= Callbacks(FIRST_REQUEST, peer, 0, j).startIndex
    decreases j
  {
    if m < j {
      NeverFalls(peer, m, j - 1);
      OneStep(peer, j - 1);
    }
  }

  /** Against a peer that answers what is asked the walk stays open for ever if and only if the replies dry up. */
  lemma OpenForEverIff(peer: nat -> Page)
    requires EchoesFrom(FIRST_REQUEST, peer, 0)
    ensures OpenForEver(FIRST_REQUEST, peer, 0) <==> exists m :: DriesUp(peer, m)
  {
    if OpenForEver(FIRST_REQUEST, peer, 0) {
      var last := LastRise(peer, 0);
      assert DriesUp(peer, last);
    }
    if m :| DriesUp(peer, m) {
      DryWalkStaysOpen(peer, m);
    }
  }

  // ------------------------------------------------------------ what a walk that ends has done

  /** Reply n ends the walk; what has been printed by then. */
  ghost predicate EndsAt(peer: nat -> Page, n: nat) {
    && Open(Callbacks(FIRST_REQUEST, peer, 0, n))
    && var before, last := Callbacks(FIRST_REQUEST, peer, 0, n), peer(n);
       var m := if last.status == SUCCESS then last.start + last.count else before.startIndex;
       && (last.status == SUCCESS ==> last.start + last.count >= last.total)
       && Finished(Callbacks(FIRST_REQUEST, peer, 0, n + 1), m)
  }

  lemma {:induction false} FirstClosed(peer: nat -> Page, m: nat) returns (n: nat)
    requires !Open(Callbacks(FIRST_REQUEST, peer, 0, m))
    ensures Open(Callbacks(FIRST_REQUEST, peer, 0, n)) && !Open(Callbacks(FIRST_REQUEST, peer, 0, n + 1))
    decreases m
  {
    if Open(Callbacks(FIRST_REQUEST, peer, 0, m - 1)) {
      n := m - 1;
    } else {
      n := FirstClosed(peer, m - 1);
    }
  }

  /**
   * Against a peer that answers what is asked and does not dry up the walk
   * ends, an error reply midway included: it notifies once and frees once, after
   * at most 255 replies besides the empty ones. A walk that ends well, on a page
   * that does not overshoot the table, has printed the indices 0..total-1, once
   * each and in order.
   */
  lemma TableIsWalkedOnce(peer: nat -> Page, total: byte) returns (n: nat)
    requires EchoesFrom(FIRST_REQUEST, peer, 0) && forall m :: !DriesUp(peer, m)
    ensures EndsAt(peer, n) && n <= 0xFE + Empties(peer, 0, n)
    ensures peer(n).status == SUCCESS && peer(n).total == total && peer(n).start + peer(n).count <= total ==>
              Callbacks(FIRST_REQUEST, peer, 0, n + 1).printed == Range(0, total)
  {
    OpenForEverIff(peer);
    var m: nat :| !Open(Callbacks(FIRST_REQUEST, peer, 0, m));
    n := FirstClosed(peer, m);
    assert FIRST_REQUEST.printed == Range(0, 0);
    OpenWalk(FIRST_REQUEST, peer, 0, n);
    OneMoreCallback(FIRST_REQUEST, peer, 0, n);
    assert EchoesAt(FIRST_REQUEST, peer, 0, n);
    OnePage(Callbacks(FIRST_REQUEST, peer, 0, n), peer(n));
  }
}
