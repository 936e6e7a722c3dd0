/**
 * The deferred-action table `delayed_action_handler` of Source/misc.h.
 *
 * The table is an ordered map from fire instant to callback. `insert` files a
 * callback under `now + delay`; `update` reads the clock once and then keeps
 * taking the entry with the smallest instant, running and erasing it while
 * that instant is at or before the reading. Callbacks are opaque values of
 * the type parameter `A`; running one is recorded by returning it.
 */
module DelayedActions {
  import opened SteadyClock

  /** One entry of the table: the instant it fires at and its callback. */
  datatype Entry<A> = Entry(at: int, action: A)

  /** If `k` is least among the instants of `ks` other than `x`, the smaller of `x` and `k` is least in `ks`. */
  lemma LeastOfAdded(ks: set<int>, x: int, k: int)
    requires x in ks && k in ks - {x} && forall j :: j in ks - {x} ==> k <= j
    ensures var m := if x <= k then x else k;
      m in ks && forall j :: j in ks ==> m <= j
  {
    forall j | j in ks ensures (if x <= k then x else k) <= j {
      if j != x {
        assert j in ks - {x};
      }
    }
  }

  /** Every non-empty finite set of instants has a least element. */
  lemma {:induction false} HasLeast(ks: set<int>)
    requires ks != {}
    ensures exists k :: k in ks && forall j :: j in ks ==> k <= j
  {
    if forall y :: y !in ks {
      assert false;
    }
    var x :| x in ks;
    var rest := ks - {x};
    if rest == {} {
      forall j | j in ks ensures x <= j {
        assert j !in rest;
      }
    } else {
      HasLeast(rest);
      var k :| k in rest && forall j :: j in rest ==> k <= j;
      LeastOfAdded(ks, x, k);
    }
  }

  /** The key of `actions.begin()`: the earliest instant in a non-empty table. */
  function Earliest<A>(m: map<int, A>): (k: int)
    requires m != map[]
    ensures k in m
    ensures forall j :: j in m ==> k <= j
  {
    HasLeast(m.Keys);
    var k :| k in m && forall j :: j in m ==> k <= j;
    k
  }

  /** The instant a callback inserted at `now` with a delay of `waitMs` milliseconds fires at. */
  function FireInstant(now: int, waitMs: int): (r: int)
    ensures waitMs > 0 ==> now < r
    ensures waitMs == 0 ==> r == now
    ensures waitMs < 0 ==> r < now
    ensures (r - now) % NanosPerMilli == 0 && (r - now) / NanosPerMilli == waitMs
  {
    now + waitMs * NanosPerMilli
  }

  /** The instants of a sequence of entries. */
  function KeysOf<A>(s: seq<Entry<A>>): (r: set<int>)
    ensures |s| > 0 ==> s[0].at in r
    ensures r == {} <==> s == []
  {
    set i | 0 <= i < |s| :: s[i].at
  }

  /** Instants strictly increase along the sequence (so none occurs twice). */
  predicate StrictlyAscending<A>(s: seq<Entry<A>>)
  {
    forall i, j :: 0 <= i < j < |s| ==> s[i].at < s[j].at
  }

  /** The instants of `m` that are due at time `t`. */
  function DueKeys<A>(m: map<int, A>, t: int): set<int>
  {
    set k | k in m && k <= t
  }

  /** The part of `m` still in the future at time `t`: every entry after `t`, unchanged. */
  function Pending<A>(m: map<int, A>, t: int): (r: map<int, A>)
    ensures forall k :: k in r ==> t < k && k in m && r[k] == m[k]
    ensures forall k :: k in m && t < k ==> k in r
  {
    map k | k in m && k > t :: m[k]
  }

  /**
   * `fired` is a run of the entries of `m` due at `t`: each of them exactly
   * once, with its own callback, earliest first.
   */
  ghost predicate FiredFrom<A>(m: map<int, A>, t: int, fired: seq<Entry<A>>)
  {
    && StrictlyAscending(fired)
    && KeysOf(fired) == DueKeys(m, t)
    && forall i :: 0 <= i < |fired| ==> fired[i].at in m && m[fired[i].at] == fired[i].action
  }

  lemma KeysOfAppend<A>(s: seq<Entry<A>>, e: Entry<A>)
    ensures KeysOf(s + [e]) == KeysOf(s) + {e.at}
  {
    assert forall i :: 0 <= i < |s| ==> (s + [e])[i] == s[i];
    assert (s + [e])[|s|] == e;
  }

  /**
   * Midway through an update at `t` that started from table `orig`: `rest`
   * is what is left of it and `fired` what has run so far, earliest first,
   * all of it due and all of it before anything left.
   */
  ghost predicate Settling<A>(orig: map<int, A>, t: int, rest: map<int, A>, fired: seq<Entry<A>>)
  {
    && (forall k :: k in rest ==> k in orig && rest[k] == orig[k])
    && KeysOf(fired) == orig.Keys - rest.Keys
    && (forall i :: 0 <= i < |fired| ==> fired[i].at <= t && fired[i].at in orig && orig[fired[i].at] == fired[i].action)
    && StrictlyAscending(fired)
    && (forall i, k :: 0 <= i < |fired| && k in rest ==> fired[i].at < k)
  }

  /** Running and erasing the earliest entry, when it is due, keeps the update settling. */
  lemma FireEarliestKeepsSettling<A>(orig: map<int, A>, t: int, rest: map<int, A>, fired: seq<Entry<A>>)
    requires Settling(orig, t, rest, fired)
    requires rest != map[] && Earliest(rest) <= t
    ensures |rest - {Earliest(rest)}| < |rest|
    ensures Settling(orig, t, rest - {Earliest(rest)}, fired + [Entry(Earliest(rest), rest[Earliest(rest)])])
  {
    var first := Earliest(rest);
    var rest' := rest - {first};
    assert rest'.Keys == rest.Keys - {first};
    assert |rest'.Keys| == |rest.Keys| - 1;
    FiredEarliestStaysOrdered(orig, t, rest, fired, first);
  }

  lemma FiredEarliestStaysOrdered<A>(orig: map<int, A>, t: int, rest: map<int, A>, fired: seq<Entry<A>>, first: int)
    requires Settling(orig, t, rest, fired)
    requires first in rest && first <= t && forall j :: j in rest ==> first <= j
    ensures var fired' := fired + [Entry(first, rest[first])];
      && KeysOf(fired') == orig.Keys - (rest - {first}).Keys
      && (forall i :: 0 <= i < |fired'| ==> fired'[i].at <= t && fired'[i].at in orig && orig[fired'[i].at] == fired'[i].action)
      && StrictlyAscending(fired')
      && (forall i, k :: 0 <= i < |fired'| && k in rest - {first} ==> fired'[i].at < k)
  {
    var e := Entry(first, rest[first]);
    var fired' := fired + [e];
    KeysOfAppend(fired, e);
    forall i | 0 <= i < |fired'|
      ensures fired'[i].at <= t && fired'[i].at in orig && orig[fired'[i].at] == fired'[i].action
    {
      if i < |fired| { assert fired'[i] == fired[i]; }
    }
    forall i, j | 0 <= i < j < |fired'|
      ensures fired'[i].at < fired'[j].at
    {
      assert fired'[i] == fired[i];
      if j < |fired| { assert fired'[j] == fired[j]; }
    }
    forall i, k | 0 <= i < |fired'| && k in rest - {first}
      ensures fired'[i].at < k
    {
      if i < |fired| { assert fired'[i] == fired[i]; }
    }
  }

  /** Once nothing left is due, the update has fired exactly the due entries. */
  lemma SettledWhenNothingDue<A>(orig: map<int, A>, t: int, rest: map<int, A>, fired: seq<Entry<A>>)
    requires Settling(orig, t, rest, fired)
    requires rest == map[] || Earliest(rest) > t
    ensures rest == Pending(orig, t)
    ensures FiredFrom(orig, t, fired)
  {
    assert forall k :: k in rest ==> t < k;
    assert forall k :: k in KeysOf(fired) ==> k <= t;
    forall k | k in orig && t < k
      ensures k in rest
    {
      assert k !in KeysOf(fired);
    }
    forall k | k in DueKeys(orig, t)
      ensures k in KeysOf(fired)
    {
    }
  }

  class DelayedActionHandler<A> {
    /** Fire instant to callback; the map keeps at most one callback per instant. */
    var actions: map<int, A>

    constructor ()
      ensures actions == map[]
    {
      actions := map[];
    }

    /**
     * insert(wait_time, lambda), with the clock reading `now` and the delay
     * already converted to whole milliseconds. As `std::map::emplace` does,
     * a callback whose instant is already taken is dropped and the table is
     * left as it was. Negative delays are accepted.
     */
    method Insert(now: int, waitMs: int, action: A)
      modifies this
      ensures actions.Keys == old(actions).Keys + {FireInstant(now, waitMs)}
      ensures FireInstant(now, waitMs) in old(actions) ==> actions == old(actions)
      ensures FireInstant(now, waitMs) !in old(actions) ==>
                actions[FireInstant(now, waitMs)] == action &&
                forall k :: k in old(actions) ==> actions[k] == old(actions)[k]
    {
      var key := FireInstant(now, waitMs);
      if key !in actions {
        actions := actions[key := action];
      }
    }

    /**
     * update(), with the single clock reading `now`. Runs (returns, in order)
     * and erases every entry due at `now`, earliest first, and keeps every
     * other entry untouched.
     */
    method Update(now: int) returns (fired: seq<Entry<A>>)
      modifies this
      ensures actions == Pending(old(actions), now)
      ensures FiredFrom(old(actions), now, fired)
    {
      fired := [];
      while actions != map[] && Earliest(actions) <= now
        invariant Settling(old(actions), now, actions, fired)
        decreases |actions|
      {
        var first := Earliest(actions);
        FireEarliestKeepsSettling(old(actions), now, actions, fired);
        fired := fired + [Entry(first, actions[first])];
        actions := actions - {first};
      }
      SettledWhenNothingDue(old(actions), now, actions, fired);
    }
  }

  lemma KeysOfConcat<A>(s1: seq<Entry<A>>, s2: seq<Entry<A>>)
    ensures KeysOf(s1 + s2) == KeysOf(s1) + KeysOf(s2)
  {
    var s := s1 + s2;
    forall k | k in KeysOf(s) ensures k in KeysOf(s1) + KeysOf(s2) {
      var i :| 0 <= i < |s| && s[i].at == k;
      if i < |s1| { assert s[i] == s1[i]; } else { assert s[i] == s2[i - |s1|]; }
    }
    forall k | k in KeysOf(s1) + KeysOf(s2) ensures k in KeysOf(s) {
      if k in KeysOf(s1) {
        var i :| 0 <= i < |s1| && s1[i].at == k;
        assert s[i] == s1[i];
      } else {
        var i :| 0 <= i < |s2| && s2[i].at == k;
        assert s[|s1| + i] == s2[i];
      }
    }
  }

  /**
   * Two strictly ascending runs over the same instants, both carrying the
   * callbacks `m` holds for them, are the same run.
   */
  lemma {:induction false} AscendingRunsAgree<A>(m: map<int, A>, s1: seq<Entry<A>>, s2: seq<Entry<A>>)
    requires StrictlyAscending(s1) && StrictlyAscending(s2)
    requires KeysOf(s1) == KeysOf(s2)
    requires forall i :: 0 <= i < |s1| ==> s1[i].at in m && m[s1[i].at] == s1[i].action
    requires forall i :: 0 <= i < |s2| ==> s2[i].at in m && m[s2[i].at] == s2[i].action
    ensures s1 == s2
    decreases |s1|
  {
    if s1 == [] || s2 == [] {
    } else {
      var k1, k2 := s1[0].at, s2[0].at;
      assert k1 in KeysOf(s2);
      assert k2 in KeysOf(s1);
      assert k1 == k2 by {
        var i :| 0 <= i < |s2| && s2[i].at == k1;
        var j :| 0 <= j < |s1| && s1[j].at == k2;
        assert k2 <= k1 && k1 <= k2;
      }
      assert s1[0] == s2[0];
      var t1, t2 := s1[1..], s2[1..];
      TailKeys(s1);
      TailKeys(s2);
      AscendingRunsAgree(m, t1, t2);
      assert s1 == [s1[0]] + t1 && s2 == [s2[0]] + t2;
    }
  }

  /** Dropping the head of a strictly ascending run drops exactly its instant. */
  lemma TailKeys<A>(s: seq<Entry<A>>)
    requires StrictlyAscending(s) && s != []
    ensures StrictlyAscending(s[1..])
    ensures KeysOf(s[1..]) == KeysOf(s) - {s[0].at}
  {
    var tail := s[1..];
    assert forall i :: 0 <= i < |tail| ==> tail[i] == s[i + 1];
    forall k | k in KeysOf(tail) ensures k in KeysOf(s) - {s[0].at} {
      var i :| 0 <= i < |tail| && tail[i].at == k;
      assert s[i + 1].at == k && s[0].at < k;
    }
    forall k | k in KeysOf(s) - {s[0].at} ensures k in KeysOf(tail) {
      var i :| 0 <= i < |s| && s[i].at == k;
      assert tail[i - 1].at == k;
    }
  }

  /** The entries one update fires, and their order, are determined by the table and the instant. */
  lemma FiredUnique<A>(m: map<int, A>, t: int, f1: seq<Entry<A>>, f2: seq<Entry<A>>)
    requires FiredFrom(m, t, f1) && FiredFrom(m, t, f2)
    ensures f1 == f2
  {
    AscendingRunsAgree(m, f1, f2);
  }

  /** An update when nothing is due fires nothing and leaves the table as it was. */
  lemma NothingDueIsNoop<A>(m: map<int, A>, t: int, fired: seq<Entry<A>>)
    requires forall k :: k in m ==> t < k
    requires FiredFrom(m, t, fired)
    ensures fired == [] && Pending(m, t) == m
  {
    assert KeysOf(fired) == {};
  }

  /** A second update at the same instant fires nothing and changes nothing. */
  lemma RepeatedUpdateIsNoop<A>(m: map<int, A>, t: int, fired: seq<Entry<A>>)
    requires FiredFrom(Pending(m, t), t, fired)
    ensures fired == [] && Pending(Pending(m, t), t) == Pending(m, t)
  {
    NothingDueIsNoop(Pending(m, t), t, fired);
  }

  /**
   * An update at `t1` followed by one at a later `t2` fires what a single
   * update at `t2` would have fired, in the same order, and leaves the same table.
   */
  lemma UpdatesCompose<A>(m: map<int, A>, t1: int, t2: int, f1: seq<Entry<A>>, f2: seq<Entry<A>>)
    requires t1 <= t2
    requires FiredFrom(m, t1, f1) && FiredFrom(Pending(m, t1), t2, f2)
    ensures FiredFrom(m, t2, f1 + f2)
    ensures Pending(Pending(m, t1), t2) == Pending(m, t2)
  {
    KeysOfConcat(f1, f2);
    assert KeysOf(f1 + f2) == DueKeys(m, t2);
    AscendingConcat(f1, f2, t1);
    var f := f1 + f2;
    forall i | 0 <= i < |f| ensures f[i].at in m && m[f[i].at] == f[i].action {
      if i < |f1| { assert f[i] == f1[i]; } else { assert f[i] == f2[i - |f1|]; }
    }
  }

  /** Two ascending runs, the first at or before `t` and the second after it, join into one. */
  lemma AscendingConcat<A>(s1: seq<Entry<A>>, s2: seq<Entry<A>>, t: int)
    requires StrictlyAscending(s1) && StrictlyAscending(s2)
    requires forall k :: k in KeysOf(s1) ==> k <= t
    requires forall k :: k in KeysOf(s2) ==> t < k
    ensures StrictlyAscending(s1 + s2)
  {
    var s := s1 + s2;
    forall i, j | 0 <= i < j < |s| ensures s[i].at < s[j].at {
      if j < |s1| {
        assert s[i] == s1[i] && s[j] == s1[j];
      } else if i < |s1| {
        assert s[i] == s1[i] && s[j] == s2[j - |s1|];
        assert s1[i].at in KeysOf(s1) && s2[j - |s1|].at in KeysOf(s2);
      } else {
        assert s[i] == s2[i - |s1|] && s[j] == s2[j - |s1|];
      }
    }
  }

  /**
   * Two callbacks inserted at the same clock reading with delays d1 < d2:
   * whenever an update fires the later one, it fires the earlier one before it.
   */
  lemma ShorterDelayFiresFirst<A>(m: map<int, A>, now: int, d1: int, d2: int, t: int, fired: seq<Entry<A>>, j: int)
    requires d1 < d2
    requires FireInstant(now, d1) in m
    requires FiredFrom(m, t, fired)
    requires 0 <= j < |fired| && fired[j].at == FireInstant(now, d2)
    ensures exists i :: 0 <= i < j && fired[i].at == FireInstant(now, d1)
  {
    var k1 := FireInstant(now, d1);
    assert fired[j].at in KeysOf(fired);
    assert k1 in DueKeys(m, t);
    var i :| 0 <= i < |fired| && fired[i].at == k1;
    assert fired[i].at < fired[j].at;
    assert i < j;
  }

  /**
   * Nothing holds back an entry filed at or before the update's clock
   * reading: a callback inserted with a delay of zero or less, at an instant
   * not yet taken, runs in an update made at the same reading.
   */
  lemma NonPositiveDelayFiresAtOnce<A>(m: map<int, A>, now: int, waitMs: int, action: A, fired: seq<Entry<A>>)
    requires waitMs <= 0 && FireInstant(now, waitMs) !in m
    requires FiredFrom(m[FireInstant(now, waitMs) := action], now, fired)
    ensures Entry(FireInstant(now, waitMs), action) in fired
  {
    var key := FireInstant(now, waitMs);
    assert key in DueKeys(m[key := action], now);
    var i :| 0 <= i < |fired| && fired[i].at == key;
    assert fired[i] == Entry(key, action);
  }

  /**
   * Three callbacks A, B, C inserted at instant 0 with delays of 100, 50 and
   * 200 ms; an update at 150 ms runs B then A, one at 250 ms runs C, and a
   * third runs nothing.
   */
  method ThreeDelaysScenario()
  {
    var h := new DelayedActionHandler<char>();
    h.Insert(0, 100, 'A');
    h.Insert(0, 50, 'B');
    h.Insert(0, 200, 'C');
    var table := h.actions;
    assert table == map[100 * NanosPerMilli := 'A', 50 * NanosPerMilli := 'B', 200 * NanosPerMilli := 'C'];

    var first := h.Update(150 * NanosPerMilli);
    var expected := [Entry(50 * NanosPerMilli, 'B'), Entry(100 * NanosPerMilli, 'A')];
    assert KeysOf(expected) == DueKeys(table, 150 * NanosPerMilli) by {
      assert expected[0].at in KeysOf(expected) && expected[1].at in KeysOf(expected);
    }
    FiredUnique(table, 150 * NanosPerMilli, first, expected);
    assert first == expected;
    assert h.actions == map[200 * NanosPerMilli := 'C'];

    var second := h.Update(250 * NanosPerMilli);
    assert KeysOf([Entry(200 * NanosPerMilli, 'C')]) == DueKeys(map[200 * NanosPerMilli := 'C'], 250 * NanosPerMilli);
    FiredUnique(map[200 * NanosPerMilli := 'C'], 250 * NanosPerMilli, second, [Entry(200 * NanosPerMilli, 'C')]);
    assert second == [Entry(200 * NanosPerMilli, 'C')];
    assert h.actions == map[];

    var third := h.Update(250 * NanosPerMilli);
    assert third == [];
  }

  /**
   * Two callbacks inserted at the same reading with the same delay share a
   * fire instant: the second is dropped and only the first ever runs.
   */
  method DuplicateInstantScenario()
  {
    var h := new DelayedActionHandler<char>();
    h.Insert(7, 20, 'X');
    h.Insert(7, 20, 'Y');
    assert h.actions == map[FireInstant(7, 20) := 'X'];
    var fired := h.Update(FireInstant(7, 20));
    assert KeysOf([Entry(FireInstant(7, 20), 'X')]) == DueKeys(map[FireInstant(7, 20) := 'X'], FireInstant(7, 20));
    FiredUnique(map[FireInstant(7, 20) := 'X'], FireInstant(7, 20), fired, [Entry(FireInstant(7, 20), 'X')]);
    assert fired == [Entry(FireInstant(7, 20), 'X')];
  }
}
