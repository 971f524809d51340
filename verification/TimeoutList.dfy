/**
  * The intrusive timeout list of a service thread: each connection holds the next connection and a
  * link to the cell that points at it, which is the list head or another connection's next field.
  */
module TimeoutList {
  /** struct lws **: no cell, the thread's list head, or a connection's timeout_list field. */
  datatype Cell = NoCell | ListHead | NextOf(w: Wsi)

  class Wsi {
    var timeoutList: Wsi?
    var timeoutListPrev: Cell
    var pendingTimeout: nat       // NO_PENDING_TIMEOUT is 0
    var pendingTimeoutLimit: int

    constructor ()
      ensures timeoutList == null && timeoutListPrev == NoCell && pendingTimeout == 0
    {
      timeoutList, timeoutListPrev, pendingTimeout, pendingTimeoutLimit := null, NoCell, 0, 0;
    }
  }

  /** The connection after the i-th of a chain, and the cell that points at the i-th. */
  ghost function NextIn(chain: seq<Wsi>, i: int): Wsi?
    requires 0 <= i < |chain|
  {
    if i + 1 < |chain| then chain[i + 1] else null
  }

  ghost function CellOf(chain: seq<Wsi>, i: int): Cell
    requires 0 <= i < |chain|
  {
    if i == 0 then ListHead else NextOf(chain[i - 1])
  }

  ghost predicate Linked(chain: seq<Wsi>, i: int)
    requires 0 <= i < |chain|
    reads {chain[i]}`timeoutList, {chain[i]}`timeoutListPrev
  {
    chain[i].timeoutList == NextIn(chain, i) && chain[i].timeoutListPrev == CellOf(chain, i)
  }

  ghost predicate Distinct(chain: seq<Wsi>)
  {
    forall i, j | 0 <= i < j < |chain| :: chain[i] != chain[j]
  }

  /** `w` where it stands in `chain`. */
  ghost function IndexOf(chain: seq<Wsi>, w: Wsi): (i: nat)
    requires w in chain
    ensures i < |chain| && chain[i] == w
  {
    if chain[0] == w then 0 else 1 + IndexOf(chain[1..], w)
  }

  ghost function Without(chain: seq<Wsi>, w: Wsi): seq<Wsi>
  {
    if w in chain then var i := IndexOf(chain, w); chain[..i] + chain[i + 1..] else chain
  }

  lemma WithoutMembers(chain: seq<Wsi>, k: nat)
    requires k < |chain| && Distinct(chain)
    ensures Distinct(chain[..k] + chain[k + 1..])
    ensures forall w :: w in chain[..k] + chain[k + 1..] <==> w in chain && w != chain[k]
  {
    var rest := chain[..k] + chain[k + 1..];
    forall w | w in chain && w != chain[k] ensures w in rest {
      var i :| 0 <= i < |chain| && chain[i] == w;
      assert rest[if i < k then i else i - 1] == w;
    }
  }

  /** Taking out the k-th link leaves a chain, once its two neighbours point at each other. */
  lemma Relinked(was: seq<Wsi>, k: nat, rest: seq<Wsi>)
    requires k < |was| && rest == was[..k] + was[k + 1..]
    requires forall i | 0 <= i < |was| && i != k && i != k + 1 :: was[i].timeoutListPrev == CellOf(was, i)
    requires forall i | 0 <= i < |was| && i != k && i + 1 != k :: was[i].timeoutList == NextIn(was, i)
    requires k > 0 ==> was[k - 1].timeoutList == NextIn(was, k)
    requires k + 1 < |was| ==> was[k + 1].timeoutListPrev == CellOf(was, k)
    ensures forall i {:trigger Linked(rest, i)} | 0 <= i < |rest| :: Linked(rest, i)
  {
    forall i | 0 <= i < |rest| ensures Linked(rest, i) {
      RestAt(was, k, rest, i);
    }
  }

  lemma RestAt(was: seq<Wsi>, k: nat, rest: seq<Wsi>, i: nat)
    requires k < |was| && rest == was[..k] + was[k + 1..] && i < |rest|
    ensures var j := if i < k then i else i + 1;
      && rest[i] == was[j]
      && NextIn(rest, i) == NextIn(was, if i + 1 == k then k else j)
      && CellOf(rest, i) == CellOf(was, if i == k then k else j)
  {
  }

  // ----- what the calls mean -----

  datatype Call =
    | Set(w: Wsi, reason: nat, secs: int, now: int)     // lws_set_timeout
    | Drop(w: Wsi)                                      // lws_remove_from_timeout_list

  ghost function After(chain: seq<Wsi>, c: Call): seq<Wsi>
  {
    if c.Drop? || c.reason == 0 then Without(chain, c.w)
    else if c.w in chain then chain
    else [c.w] + chain
  }

  ghost function AfterAll(chain: seq<Wsi>, calls: seq<Call>): seq<Wsi>
    decreases |calls|
  {
    if calls == [] then chain
    else After(AfterAll(chain, calls[..|calls| - 1]), calls[|calls| - 1])
  }

  /** The last call about `w` decides whether it is on the list. */
  predicate Waiting(w: Wsi, before: bool, calls: seq<Call>)
    decreases |calls|
  {
    if calls == [] then before
    else
      var c := calls[|calls| - 1];
      if c.w == w then c.Set? && c.reason != 0 else Waiting(w, before, calls[..|calls| - 1])
  }

  /** The last lws_set_timeout for `w`. */
  function LastSet(w: Wsi, calls: seq<Call>): (r: seq<Call>)
    ensures |r| <= 1 && forall c | c in r :: c.Set?
    decreases |calls|
  {
    if calls == [] then []
    else
      var c := calls[|calls| - 1];
      if c.w == w && c.Set? then [c] else LastSet(w, calls[..|calls| - 1])
  }

  /** The last call about `w` set a timeout, which has not run out at `now`. */
  predicate StillArmed(w: Wsi, calls: seq<Call>, now: int)
    decreases |calls|
  {
    calls != [] &&
    var c := calls[|calls| - 1];
    if c.w == w then c.Set? && c.reason != 0 && now <= c.now + c.secs
    else StillArmed(w, calls[..|calls| - 1], now)
  }

  /** A timeout that waits runs out as its last setting says. */
  lemma {:induction false} ArmedExactly(w: Wsi, calls: seq<Call>, now: int)
    ensures Waiting(w, false, calls) ==> LastSet(w, calls) != [] && LastSet(w, calls)[0].reason != 0
    ensures StillArmed(w, calls, now) <==>
      Waiting(w, false, calls) && now <= LastSet(w, calls)[0].now + LastSet(w, calls)[0].secs
    decreases |calls|
  {
    if calls != [] {
      ArmedExactly(w, calls[..|calls| - 1], now);
    }
  }

  lemma AfterMembers(chain: seq<Wsi>, c: Call)
    requires Distinct(chain)
    ensures Distinct(After(chain, c))
    ensures forall w :: w in After(chain, c) <==> if w == c.w then c.Set? && c.reason != 0 else w in chain
  {
    if c.w in chain {
      WithoutMembers(chain, IndexOf(chain, c.w));
    }
  }

  /** A connection is on the list, once, exactly when the last call about it armed a timeout. */
  lemma {:induction false} OnListWhenWaiting(chain: seq<Wsi>, calls: seq<Call>, w: Wsi)
    requires Distinct(chain)
    ensures Distinct(AfterAll(chain, calls))
    ensures w in AfterAll(chain, calls) <==> Waiting(w, w in chain, calls)
    decreases |calls|
  {
    if calls != [] {
      var most := calls[..|calls| - 1];
      OnListWhenWaiting(chain, most, w);
      AfterMembers(AfterAll(chain, most), calls[|calls| - 1]);
    }
  }

  /** The connections of `s` that are not in `gone`, in order. */
  ghost function Outside(s: seq<Wsi>, gone: set<Wsi>): (r: seq<Wsi>)
    ensures |r| <= |s|
  {
    if s == [] then []
    else if s[0] in gone then Outside(s[1..], gone)
    else [s[0]] + Outside(s[1..], gone)
  }

  /** The connections of `s` whose time is up. */
  ghost function Late(s: seq<Wsi>, now: int): set<Wsi>
    reads s`pendingTimeout, s`pendingTimeoutLimit
  {
    set w | w in s && Expired(w, now)
  }

  predicate Expired(w: Wsi, now: int)
    reads w`pendingTimeout, w`pendingTimeoutLimit
  {
    w.pendingTimeout != 0 && now > w.pendingTimeoutLimit
  }

  /** The timeout of `w` is as `c` sets it. */
  predicate AsSet(w: Wsi, c: Call)
    requires c.Set?
    reads w`pendingTimeout, w`pendingTimeoutLimit
  {
    w.pendingTimeout == c.reason && w.pendingTimeoutLimit == c.now + c.secs
  }

  class PerThread {
    var timeoutList: Wsi?
    ghost var chain: seq<Wsi>

    /** Head, next and back links agree with `chain`; of `all`, exactly the connections on it have a back link. */
    ghost predicate Valid(all: set<Wsi>)
      reads this, all`timeoutList, all`timeoutListPrev
    {
      && timeoutList == (if chain == [] then null else chain[0])
      && Distinct(chain)
      && (forall i | 0 <= i < |chain| :: chain[i] in all)
      && (forall i {:trigger Linked(chain, i)} | 0 <= i < |chain| :: Linked(chain, i))
      && (forall w | w in all :: w in chain <==> w.timeoutListPrev != NoCell)
    }

    lemma Member(w: Wsi, all: set<Wsi>)
      requires Valid(all) && w in all
      ensures w in chain <==> w.timeoutListPrev != NoCell
    {
    }

    lemma IsDistinct(all: set<Wsi>)
      requires Valid(all)
      ensures Distinct(chain)
    {
    }

    constructor ()
      ensures chain == [] && timeoutList == null
    {
      timeoutList, chain := null, [];
    }

    /** The link updates of lws_remove_from_timeout_list, for a connection with neighbours `prev` and `next`. */
    method Unlink(w: Wsi, ghost prev: Wsi?, ghost next: Wsi?, ghost all: set<Wsi>)
      requires w.timeoutListPrev == (if prev == null then ListHead else NextOf(prev)) && w.timeoutList == next
      requires w in all && (prev != null ==> prev in all) && (next != null ==> next in all)
      requires w != prev && w != next && (prev == null || prev != next)
      modifies this`timeoutList, all`timeoutList, all`timeoutListPrev
      ensures w.timeoutList == null && w.timeoutListPrev == NoCell
      ensures next != null ==> next.timeoutListPrev == (if prev == null then ListHead else NextOf(prev))
      ensures prev != null ==> prev.timeoutList == next
      ensures timeoutList == if prev == null then next else old(timeoutList)
      ensures forall x | x in all && x != w && x != next :: x.timeoutListPrev == old(x.timeoutListPrev)
      ensures forall x | x in all && x != w && x != prev :: x.timeoutList == old(x.timeoutList)
    {
      if w.timeoutList != null {
        w.timeoutList.timeoutListPrev := w.timeoutListPrev;
      }
      if w.timeoutListPrev.ListHead? {
        timeoutList := w.timeoutList;
      } else {
        w.timeoutListPrev.w.timeoutList := w.timeoutList;
      }
      w.timeoutListPrev := NoCell;
      w.timeoutList := null;
    }

    /** The same for the k-th connection of a chain: every other link stays. */
    method Detach(w: Wsi, ghost was: seq<Wsi>, ghost k: nat, ghost all: set<Wsi>)
      requires k < |was| && was[k] == w && Distinct(was) && forall i | 0 <= i < |was| :: was[i] in all
      requires forall i {:trigger Linked(was, i)} | 0 <= i < |was| :: Linked(was, i)
      modifies this`timeoutList, all`timeoutList, all`timeoutListPrev
      ensures w.timeoutList == null && w.timeoutListPrev == NoCell
      ensures timeoutList == if k == 0 then NextIn(was, k) else old(timeoutList)
      ensures forall i | 0 <= i < |was| && i != k && i != k + 1 :: was[i].timeoutListPrev == CellOf(was, i)
      ensures forall i | 0 <= i < |was| && i != k && i + 1 != k :: was[i].timeoutList == NextIn(was, i)
      ensures k > 0 ==> was[k - 1].timeoutList == NextIn(was, k)
      ensures k + 1 < |was| ==> was[k + 1].timeoutListPrev == CellOf(was, k)
      ensures forall x | x in all && x !in was :: x.timeoutListPrev == old(x.timeoutListPrev)
    {
      ghost var prev: Wsi? := if k > 0 then was[k - 1] else null;
      ghost var next := NextIn(was, k);
      assert Linked(was, k);
      Unlink(w, prev, next, all);
      forall i | 0 <= i < |was| && i != k && i != k + 1 ensures was[i].timeoutListPrev == CellOf(was, i) {
        assert old(Linked(was, i));
        assert was[i] != w && was[i] != next;
      }
      forall i | 0 <= i < |was| && i != k && i + 1 != k ensures was[i].timeoutList == NextIn(was, i) {
        assert old(Linked(was, i));
        assert was[i] != w && was[i] != prev;
      }
    }

    /** lws_remove_from_timeout_list: the connection leaves the list, wherever on it it was. */
    method Remove(w: Wsi, ghost all: set<Wsi>)
      requires Valid(all) && w in all
      modifies this, all`timeoutList, all`timeoutListPrev
      ensures Valid(all) && w.timeoutListPrev == NoCell
      ensures chain == Without(old(chain), w)
    {
      if w.timeoutListPrev == NoCell {
        return;
      }
      ghost var was, k := chain, IndexOf(chain, w);
      Detach(w, was, k, all);
      WithoutMembers(was, k);
      chain := was[..k] + was[k + 1..];
      Relinked(was, k, chain);
      assert forall x | x in was && x != w :: x.timeoutListPrev != NoCell;
    }

    /** lws_set_timeout: arming puts the connection first unless it is already on the list, disarming removes it. */
    method SetTimeout(w: Wsi, reason: nat, secs: int, now: int, ghost all: set<Wsi>)
      requires Valid(all) && w in all
      modifies this, all
      ensures Valid(all)
      ensures chain == After(old(chain), Set(w, reason, secs, now))
      ensures w.pendingTimeout == reason && w.pendingTimeoutLimit == now + secs
      ensures forall x | x in all && x != w ::
        x.pendingTimeout == old(x.pendingTimeout) && x.pendingTimeoutLimit == old(x.pendingTimeoutLimit)
    {
      Member(w, all);
      hide Valid, Without, Distinct, Linked;
      if reason != 0 && w.timeoutListPrev == NoCell {
        Insert(w, all);
      }
      w.pendingTimeoutLimit := now + secs;
      w.pendingTimeout := reason;
      if reason == 0 {
        Remove(w, all);
      }
    }

    /** The link updates of lws_set_timeout. */
    method Insert(w: Wsi, ghost all: set<Wsi>)
      requires Valid(all) && w in all && w.timeoutListPrev == NoCell
      modifies this, all`timeoutList, all`timeoutListPrev
      ensures Valid(all)
      ensures chain == [w] + old(chain)
    {
      ghost var was := chain;
      w.timeoutList := timeoutList;
      if w.timeoutList != null {
        w.timeoutList.timeoutListPrev := NextOf(w);
      }
      w.timeoutListPrev := ListHead;
      timeoutList := w;
      chain := [w] + chain;
      forall i | 0 <= i < |chain| ensures Linked(chain, i) {
        assert i > 0 ==> old(Linked(was, i - 1));
        assert i > 0 ==> chain[i] == was[i - 1];
      }
    }

    /** Any mix of set and remove calls, over any number of connections, keeps the list well formed. */
    method Serve(calls: seq<Call>, ghost all: set<Wsi>)
      requires Valid(all) && forall c | c in calls :: c.w in all
      modifies this, all
      ensures Valid(all)
      ensures chain == AfterAll(old(chain), calls)
      ensures forall w | w in all :: w.timeoutListPrev != NoCell <==> Waiting(w, w in old(chain), calls)
      ensures forall w | w in all && LastSet(w, calls) != [] :: AsSet(w, LastSet(w, calls)[0])
    {
      hide Valid;
      ghost var was := chain;
      IsDistinct(all);
      for i := 0 to |calls|
        invariant Valid(all) && chain == AfterAll(was, calls[..i])
        invariant forall w | w in all && LastSet(w, calls[..i]) != [] :: AsSet(w, LastSet(w, calls[..i])[0])
      {
        assert calls[..i + 1][..i] == calls[..i] && calls[..i + 1][i] == calls[i];
        match calls[i]
        case Set(w, reason, secs, now) => SetTimeout(w, reason, secs, now, all);
        case Drop(w) => Remove(w, all);
      }
      assert calls[..|calls|] == calls;
      forall w | w in all ensures w.timeoutListPrev != NoCell <==> Waiting(w, w in was, calls) {
        OnListWhenWaiting(was, calls, w);
        Member(w, all);
      }
    }

    /** From an empty list, any calls and then a sweep: left are the connections whose timeout is still to come. */
    method ServeThenSweep(calls: seq<Call>, now: int, ghost all: set<Wsi>)
      requires Valid(all) && chain == [] && forall c | c in calls :: c.w in all
      modifies this, all
      ensures Valid(all)
      ensures forall w | w in all :: w.timeoutListPrev != NoCell <==> StillArmed(w, calls, now)
    {
      Serve(calls, all);
      ghost var was, late := chain, Late(chain, now);
      IsDistinct(all);
      ChildlessSweep(was, late, map[]);
      OutsideMembers(was, Swept(was, late, map[]).1);
      forall w | w in all ensures w in was && w !in late <==> StillArmed(w, calls, now) {
        ArmedExactly(w, calls, now);
        Member(w, all);
      }
      hide Valid, Swept, Outside, StillArmed;
      var ok := Sweep(now, map[], all);
      forall w | w in all ensures w.timeoutListPrev != NoCell <==> StillArmed(w, calls, now) {
        Member(w, all);
      }
    }

    lemma StandsAt(kept: seq<Wsi>, w: Wsi, rest: seq<Wsi>, all: set<Wsi>)
      requires Valid(all) && chain == kept + [w] + rest
      ensures w in all && w.timeoutList == (if rest == [] then null else rest[0])
      ensures Without(chain, w) == kept + rest
    {
      assert chain[|kept|] == w;
      assert Linked(chain, |kept|);
      Between(kept, w, rest);
      WithoutAt(chain, |kept|);
    }

    /** What closing does to the list: each connection that is closed leaves it. */
    method CloseAll(ws: seq<Wsi>, ghost all: set<Wsi>)
      requires Valid(all) && forall x | x in ws :: x in all
      modifies this, all`timeoutList, all`timeoutListPrev
      ensures Valid(all) && chain == Outside(old(chain), Members(ws))
    {
      OutsideNone(chain, {});
      assert Members(ws[..0]) == {};
      for i := 0 to |ws|
        invariant Valid(all) && chain == Outside(old(chain), Members(ws[..i]))
      {
        CloseStep(old(chain), ws, i, chain);
        hide Outside, Members, Without;
        Remove(ws[i], all);
      }
      assert ws[..|ws|] == ws;
    }

    /**
      * One connection of the sweep: if its time is up it is closed, with its children. The successor is saved before
      * that; `ok` tells whether it is still there to go on with.
      */
    method Visit(w: Wsi, now: int, family: map<Wsi, seq<Wsi>>,
                 ghost kept: seq<Wsi>, ghost rest: seq<Wsi>, ghost all: set<Wsi>)
      returns (next: Wsi?, ok: bool)
      requires Valid(all) && chain == kept + [w] + rest && Inside(family, all)
      modifies this, all`timeoutList, all`timeoutListPrev
      ensures Valid(all)
      ensures next == if rest == [] then null else rest[0]
      ensures var gone := if Expired(w, now) then Gone(family, w) else {};
        chain == Outside(kept + [w] + rest, gone) && (ok <==> rest == [] || rest[0] !in gone)
    {
      hide Valid, Outside, Distinct, Without, Gone, Inside;
      StandsAt(kept, w, rest, all);
      OutsideNone(chain, {});
      next, ok := w.timeoutList, true;
      if w.pendingTimeout != 0 && now > w.pendingTimeoutLimit {
        var closed := (if w in family then family[w] else []) + [w];
        GoneTogether(family, w, closed, all);
        CloseAll(closed, all);
        ok := next == null || next !in closed;
      }
    }

    /**
      * The once-a-second sweep: walks the list while closing the connections that timed out, each with its children,
      * `family`. It ends early, with `ok` false, where the code would go on from a connection that is gone.
      */
    method Sweep(now: int, family: map<Wsi, seq<Wsi>>, ghost all: set<Wsi>) returns (ok: bool)
      requires Valid(all) && Inside(family, all)
      modifies this, all`timeoutList, all`timeoutListPrev
      ensures Valid(all)
      ensures var (stays, closed) := Swept(old(chain), old(Late(chain, now)), family);
        ok == stays && chain == Outside(old(chain), closed)
    {
      ghost var was, late := chain, Late(chain, now);
      ghost var kept: seq<Wsi>, rest, closed: set<Wsi> := [], chain, {};
      var w := timeoutList;
      WalkStarts(was, late, family);
      while w != null
        invariant Valid(all) && chain == kept + rest && Walking(was, late, family, kept, rest, closed)
        invariant w == if rest == [] then null else rest[0]
        decreases |rest|
      {
        hide Valid, Walking, Swept, Outside, Gone, Inside;
        var next, on := SweepOne(w, now, family, was, late, kept, rest, closed, all);
        ghost var gone := if w in late then Gone(family, w) else {};
        kept, rest, closed := Outside(kept + [w], gone), Outside(rest[1..], gone), closed + gone;
        if !on {
          return false;
        }
        w := next;
      }
      return true;
    }

    /** The body of the loop. */
    method SweepOne(w: Wsi, now: int, family: map<Wsi, seq<Wsi>>, ghost was: seq<Wsi>, ghost late: set<Wsi>,
                    ghost kept: seq<Wsi>, ghost rest: seq<Wsi>, ghost closed: set<Wsi>, ghost all: set<Wsi>)
      returns (next: Wsi?, on: bool)
      requires Valid(all) && Inside(family, all) && chain == kept + rest && rest != [] && w == rest[0]
      requires Walking(was, late, family, kept, rest, closed)
      requires forall x | x in was :: x in late <==> Expired(x, now)
      modifies this, all`timeoutList, all`timeoutListPrev
      ensures Valid(all)
      ensures var gone := if w in late then Gone(family, w) else {};
        var kept', rest' := Outside(kept + [w], gone), Outside(rest[1..], gone);
        && chain == kept' + rest' && |rest'| < |rest|
        && if on then
             && Walking(was, late, family, kept', rest', closed + gone)
             && next == if rest' == [] then null else rest'[0]
           else Swept(was, late, family) == (false, closed + gone) && chain == Outside(was, closed + gone)
    {
      hide Valid, Walking, Swept, Outside, Gone, Inside;
      Peel(kept, rest);
      ghost var gone := if w in late then Gone(family, w) else {};
      WalkStep(was, late, family, kept, rest, closed, gone);
      next, on := Visit(w, now, family, kept, rest[1..], all);
    }
  }

  // ----- what a sweep closes -----

  ghost function Members(ws: seq<Wsi>): set<Wsi> { set x | x in ws }

  /** All connections that closing `w` closes. */
  ghost function Gone(family: map<Wsi, seq<Wsi>>, w: Wsi): set<Wsi>
  {
    {w} + if w in family then Members(family[w]) else {}
  }

  lemma CloseStep(was: seq<Wsi>, ws: seq<Wsi>, i: nat, chain: seq<Wsi>)
    requires i < |ws| && Distinct(chain) && chain == Outside(was, Members(ws[..i]))
    ensures Without(chain, ws[i]) == Outside(was, Members(ws[..i + 1]))
  {
    if ws[i] in chain {
      OutsideOne(chain, IndexOf(chain, ws[i]));
    } else {
      OutsideNone(chain, {ws[i]});
    }
    OutsideTwice(was, Members(ws[..i]), {ws[i]});
    assert Members(ws[..i + 1]) == Members(ws[..i]) + {ws[i]};
  }

  lemma GoneTogether(family: map<Wsi, seq<Wsi>>, w: Wsi, closed: seq<Wsi>, all: set<Wsi>)
    requires Inside(family, all) && w in all && closed == (if w in family then family[w] else []) + [w]
    ensures Members(closed) == Gone(family, w) && forall x :: x in closed <==> x in Gone(family, w)
    ensures forall x | x in closed :: x in all
  {
  }

  ghost predicate Inside(family: map<Wsi, seq<Wsi>>, all: set<Wsi>)
  {
    forall w, x | w in family && x in family[w] :: x in all
  }

  /** Whether the sweep of `s` stays on the list, and the connections it has closed by then. */
  ghost function Swept(s: seq<Wsi>, late: set<Wsi>, family: map<Wsi, seq<Wsi>>): (bool, set<Wsi>)
    decreases |s|
  {
    if s == [] then (true, {})
    else if s[0] !in late then Swept(s[1..], late, family)
    else
      var gone := Gone(family, s[0]);
      if |s| > 1 && s[1] in gone then (false, gone)
      else
        var (stays, more) := Swept(Outside(s[1..], gone), late, family);
        (stays, gone + more)
  }

  /** Closing the first connection of `s` in a sweep. */
  lemma SweptStep(s: seq<Wsi>, gone: set<Wsi>, late: set<Wsi>, family: map<Wsi, seq<Wsi>>)
    requires s != [] && gone == if s[0] in late then Gone(family, s[0]) else {}
    ensures if |s| > 1 && s[1] in gone then Swept(s, late, family) == (false, gone)
      else var (stays, more) := Swept(Outside(s[1..], gone), late, family);
        Swept(s, late, family) == (stays, gone + more)
  {
    OutsideNone(s[1..], {});
    if s[0] !in late {
      assert {} + Swept(s[1..], late, family).1 == Swept(s[1..], late, family).1;
    }
  }

  /** A sweep of `was` has closed `closed`, passed `kept` and has `rest` before it. */
  ghost predicate Walking(was: seq<Wsi>, late: set<Wsi>, family: map<Wsi, seq<Wsi>>,
                          kept: seq<Wsi>, rest: seq<Wsi>, closed: set<Wsi>)
  {
    && kept + rest == Outside(was, closed)
    && var (stays, more) := Swept(rest, late, family); Swept(was, late, family) == (stays, closed + more)
  }

  lemma WalkStarts(was: seq<Wsi>, late: set<Wsi>, family: map<Wsi, seq<Wsi>>)
    ensures Walking(was, late, family, [], was, {})
  {
    hide Swept;
    OutsideNone(was, {});
    assert {} + Swept(was, late, family).1 == Swept(was, late, family).1;
  }

  lemma WalkStep(was: seq<Wsi>, late: set<Wsi>, family: map<Wsi, seq<Wsi>>,
                 kept: seq<Wsi>, rest: seq<Wsi>, closed: set<Wsi>, gone: set<Wsi>)
    requires Walking(was, late, family, kept, rest, closed)
    requires rest != [] && gone == if rest[0] in late then Gone(family, rest[0]) else {}
    ensures rest[0] in was
    ensures var after := Outside(kept + [rest[0]] + rest[1..], gone);
      var kept', rest' := Outside(kept + [rest[0]], gone), Outside(rest[1..], gone);
      && after == kept' + rest' && |rest'| < |rest|
      && if |rest| > 1 && rest[1] in gone then
           Swept(was, late, family) == (false, closed + gone) && after == Outside(was, closed + gone)
         else
           && Walking(was, late, family, kept', rest', closed + gone)
           && if |rest| == 1 then rest' == [] else rest' != [] && rest'[0] == rest[1]
  {
    assert rest[0] in was by {
      OutsideMembers(was, closed);
      assert (kept + rest)[|kept|] == rest[0];
    }
    Peel(kept, rest);
    OutsideConcat(kept + [rest[0]], rest[1..], gone);
    OutsideTwice(was, closed, gone);
    SweptStep(rest, gone, late, family);
    hide Swept;
    var more := Swept(Outside(rest[1..], gone), late, family).1;
    assert closed + (gone + more) == (closed + gone) + more;
  }

  /** A sweep that stays on the list closes all connections whose time is up, and only those and their children. */
  lemma {:induction false} SweepTheorem(s: seq<Wsi>, late: set<Wsi>, family: map<Wsi, seq<Wsi>>)
    ensures var (stays, closed) := Swept(s, late, family);
      && (stays ==> forall w | w in s && w in late :: w in closed)
      && forall x | x in closed :: exists w :: w in s && w in late && x in Gone(family, w)
    decreases |s|
  {
    if s != [] {
      if s[0] !in late {
        SweepTheorem(s[1..], late, family);
      } else {
        var gone := Gone(family, s[0]);
        OutsideMembers(s[1..], gone);
        SweepTheorem(Outside(s[1..], gone), late, family);
      }
    }
  }

  /** Without children on the list, the sweep stays on it and closes exactly the connections whose time is up. */
  lemma {:induction false} ChildlessSweep(s: seq<Wsi>, late: set<Wsi>, family: map<Wsi, seq<Wsi>>)
    requires Distinct(s) && forall w, x | w in s && x in s && w != x :: x !in Gone(family, w)
    ensures var (stays, closed) := Swept(s, late, family);
      stays && forall w | w in s :: w in closed <==> w in late
    decreases |s|
  {
    if s != [] {
      assert forall x | x in s[1..] :: x in s && x != s[0];
      if s[0] in late {
        OutsideNone(s[1..], Gone(family, s[0]));
      }
      ChildlessSweep(s[1..], late, family);
      SweepTheorem(s[1..], late, family);
    }
  }

  lemma {:induction false} OutsideConcat(a: seq<Wsi>, b: seq<Wsi>, gone: set<Wsi>)
    ensures Outside(a + b, gone) == Outside(a, gone) + Outside(b, gone)
    decreases |a|
  {
    if a == [] {
      assert a + b == b;
    } else {
      assert (a + b)[1..] == a[1..] + b;
      OutsideConcat(a[1..], b, gone);
    }
  }

  lemma {:induction false} OutsideMembers(s: seq<Wsi>, gone: set<Wsi>)
    ensures forall x :: x in Outside(s, gone) <==> x in s && x !in gone
    decreases |s|
  {
    if s != [] {
      OutsideMembers(s[1..], gone);
      assert s == [s[0]] + s[1..];
    }
  }

  lemma {:induction false} OutsideNone(s: seq<Wsi>, gone: set<Wsi>)
    requires forall x | x in s :: x !in gone
    ensures Outside(s, gone) == s
    decreases |s|
  {
    if s != [] {
      OutsideNone(s[1..], gone);
    }
  }

  lemma {:induction false} OutsideTwice(s: seq<Wsi>, a: set<Wsi>, b: set<Wsi>)
    ensures Outside(Outside(s, a), b) == Outside(s, a + b)
    decreases |s|
  {
    if s != [] {
      OutsideTwice(s[1..], a, b);
      if s[0] !in a {
        assert ([s[0]] + Outside(s[1..], a))[1..] == Outside(s[1..], a);
      }
    }
  }

  lemma {:induction false} OutsideOne(s: seq<Wsi>, k: nat)
    requires Distinct(s) && k < |s|
    ensures Outside(s, {s[k]}) == s[..k] + s[k + 1..]
  {
    if k == 0 {
      OutsideNone(s[1..], {s[0]});
    } else {
      OutsideOne(s[1..], k - 1);
      assert s[..k] == [s[0]] + s[1..][..k - 1] && s[1..][k..] == s[k + 1..];
    }
  }

  lemma Peel(a: seq<Wsi>, rest: seq<Wsi>)
    requires rest != []
    ensures a + rest == a + [rest[0]] + rest[1..]
  {
  }

  lemma Between(kept: seq<Wsi>, w: Wsi, rest: seq<Wsi>)
    ensures var s := kept + [w] + rest; s[..|kept|] + s[|kept| + 1..] == kept + rest
  {
  }

  lemma WithoutAt(chain: seq<Wsi>, k: nat)
    requires k < |chain| && Distinct(chain)
    ensures Without(chain, chain[k]) == chain[..k] + chain[k + 1..]
  {
    assert IndexOf(chain, chain[k]) == k;
  }
}
