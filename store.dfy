/** The toast-notification queue of the shared state module: an ordered list
    of notification records, to which `Add` appends a record stamped with a
    fresh id (scheduling its later dismissal when it has a timeout), and from
    which `Dismiss` removes every record carrying a given id. */
module Store {

  datatype Option<T> = None | Some(value: T)

  /** The two kinds of notification the front end displays. */
  datatype ToastType = Error | Success

  /** One notification. `timeout` is the delay, in milliseconds, after which
      the queue dismisses it on its own; zero means "never". */
  datatype ToastNotification = ToastNotification(
    id: string,
    title: string,
    subtitle: string,
    caption: string,
    timeout: int,
    kind: ToastType)

  /** A deferred dismissal of `dismissId`. `delay` is the argument handed to
      the host's timer, which calls `Expire` with this value when it fires. */
  datatype Timer = Timer(dismissId: string, delay: int)

  /** Some notification in `q` carries `id`. */
  predicate HasId(q: seq<ToastNotification>, id: string) {
    exists i :: 0 <= i < |q| && q[i].id == id
  }

  /** No two notifications in `q` share an id. */
  predicate UniqueIds(q: seq<ToastNotification>) {
    forall i, j :: 0 <= i < j < |q| ==> q[i].id != q[j].id
  }

  /** The number of notifications in `q` that carry `id`. */
  function Occurrences(q: seq<ToastNotification>, id: string): (n: nat)
    ensures n <= |q|
  {
    if q == [] then 0
    else (if q[0].id == id then 1 else 0) + Occurrences(q[1..], id)
  }

  /** `s` can be obtained from `t` by deleting elements, keeping the order of
      the rest. */
  predicate IsSubsequence<T(==)>(s: seq<T>, t: seq<T>)
    decreases |t|
  {
    if s == [] then true
    else if t == [] then false
    else if s[0] == t[0] then IsSubsequence(s[1..], t[1..])
    else IsSubsequence(s, t[1..])
  }

  /** The record as the queue stores it: the caller's record with only its
      id replaced by the generated one. */
  function Stamp(n: ToastNotification, id: string): (r: ToastNotification)
    ensures r.id == id
    ensures r.title == n.title && r.subtitle == n.subtitle && r.caption == n.caption
    ensures r.timeout == n.timeout && r.kind == n.kind
  {
    n.(id := id)
  }

  /** The queue after dismissing `id`: the notifications whose id differs
      from `id`. */
  function Without(q: seq<ToastNotification>, id: string): (r: seq<ToastNotification>)
    ensures |r| <= |q|
    ensures forall i :: 0 <= i < |r| ==> r[i].id != id
  {
    if q == [] then []
    else if q[0].id == id then Without(q[1..], id)
    else [q[0]] + Without(q[1..], id)
  }

  /** A notification survives dismissal exactly when it was queued and its
      id differs from the dismissed one. */
  lemma {:induction false} WithoutMembers(q: seq<ToastNotification>, id: string, n: ToastNotification)
    ensures n in Without(q, id) <==> n in q && n.id != id
  {
    if q != [] {
      WithoutMembers(q[1..], id, n);
      assert n in q <==> n == q[0] || n in q[1..];
    }
  }

  /** Dismissal keeps the surviving notifications in their original order. */
  lemma {:induction false} WithoutIsSubsequence(q: seq<ToastNotification>, id: string)
    ensures IsSubsequence(Without(q, id), q)
  {
    if q != [] {
      WithoutIsSubsequence(q[1..], id);
      var w := Without(q[1..], id);
      if q[0].id == id {
        assert w == [] || w[0] != q[0];
      } else {
        assert ([q[0]] + w)[1..] == w;
      }
    }
  }

  /** Dismissal removes every copy of each notification carrying `id` and
      keeps every copy of each other one. */
  lemma {:induction false} WithoutMultiplicity(q: seq<ToastNotification>, id: string, n: ToastNotification)
    ensures multiset(Without(q, id))[n] == if n.id == id then 0 else multiset(q)[n]
  {
    if q != [] {
      WithoutMultiplicity(q[1..], id, n);
      assert q == [q[0]] + q[1..];
    }
  }

  /** Dismissal changes the queue exactly when some notification carries
      the id. */
  lemma {:induction false} WithoutUnchangedIff(q: seq<ToastNotification>, id: string)
    ensures Without(q, id) == q <==> !HasId(q, id)
  {
    if q != [] {
      WithoutUnchangedIff(q[1..], id);
      if q[0].id != id && !HasId(q, id) {
        assert !HasId(q[1..], id) by {
          forall i | 0 <= i < |q[1..]| ensures q[1..][i].id != id {
            assert q[1..][i] == q[i + 1];
          }
        }
        assert q == [q[0]] + q[1..];
      }
    }
    if HasId(q, id) {
      var i :| 0 <= i < |q| && q[i].id == id;
      assert i >= |Without(q, id)| || Without(q, id)[i] != q[i];
    }
  }

  /** Dismissing the same id twice in a row is the same as dismissing it
      once. */
  lemma {:induction false} WithoutIdempotent(q: seq<ToastNotification>, id: string)
    ensures Without(Without(q, id), id) == Without(q, id)
  {
    var w := Without(q, id);
    assert !HasId(w, id);
    WithoutUnchangedIff(w, id);
  }

  /** Dismissing commutes with dismissing: independent timers may fire in
      either order. */
  lemma {:induction false} WithoutCommutes(q: seq<ToastNotification>, a: string, b: string)
    ensures Without(Without(q, a), b) == Without(Without(q, b), a)
  {
    if q != [] {
      WithoutCommutes(q[1..], a, b);
    }
  }

  /** Dismissal works element by element over a concatenation. */
  lemma {:induction false} WithoutAppend(p: seq<ToastNotification>, q: seq<ToastNotification>, id: string)
    ensures Without(p + q, id) == Without(p, id) + Without(q, id)
  {
    if p != [] {
      WithoutAppend(p[1..], q, id);
      var pq := p + q;
      assert pq != [] && pq[0] == p[0] && pq[1..] == p[1..] + q;
      if p[0].id == id {
        assert Without(pq, id) == Without(p[1..] + q, id);
      } else {
        assert Without(pq, id) == [p[0]] + Without(p[1..] + q, id);
        assert [p[0]] + (Without(p[1..], id) + Without(q, id))
            == ([p[0]] + Without(p[1..], id)) + Without(q, id);
      }
    } else {
      assert p + q == q;
    }
  }

  /** Dismissal shortens the queue by the number of notifications carrying
      the id. */
  lemma {:induction false} WithoutLength(q: seq<ToastNotification>, id: string)
    ensures |Without(q, id)| == |q| - Occurrences(q, id)
  {
    if q != [] {
      WithoutLength(q[1..], id);
    }
  }

  /** In a queue with unique ids an id occurs at most once. */
  lemma {:induction false} UniqueOccurrences(q: seq<ToastNotification>, id: string)
    requires UniqueIds(q)
    ensures Occurrences(q, id) == if HasId(q, id) then 1 else 0
  {
    if q != [] {
      UniqueOccurrences(q[1..], id);
      if q[0].id == id {
        assert !HasId(q[1..], id) by {
          forall i | 0 <= i < |q[1..]| ensures q[1..][i].id != id {
            assert q[1..][i] == q[i + 1];
          }
        }
      } else if HasId(q, id) {
        var i :| 0 <= i < |q| && q[i].id == id;
        assert q[1..][i - 1].id == id;
      }
    }
  }

  /** Dismissing an id present in a queue with unique ids removes exactly
      one notification; dismissing an absent one removes none. */
  lemma DismissLength(q: seq<ToastNotification>, id: string)
    requires UniqueIds(q)
    ensures |Without(q, id)| == if HasId(q, id) then |q| - 1 else |q|
  {
    WithoutLength(q, id);
    UniqueOccurrences(q, id);
  }

  /** Dismissal keeps ids unique. */
  lemma {:induction false} WithoutKeepsUnique(q: seq<ToastNotification>, id: string)
    requires UniqueIds(q)
    ensures UniqueIds(Without(q, id))
  {
    if q != [] {
      assert UniqueIds(q[1..]) by {
        forall i, j | 0 <= i < j < |q[1..]| ensures q[1..][i].id != q[1..][j].id {
          assert q[1..][i] == q[i + 1] && q[1..][j] == q[j + 1];
        }
      }
      WithoutKeepsUnique(q[1..], id);
      var w := Without(q[1..], id);
      if q[0].id != id {
        forall k | 0 <= k < |w| ensures w[k].id != q[0].id {
          WithoutMembers(q[1..], id, w[k]);
        }
        var r := [q[0]] + w;
        forall i, j | 0 <= i < j < |r| ensures r[i].id != r[j].id {
          if i == 0 {
            assert r[j] == w[j - 1];
          } else {
            assert r[i] == w[i - 1] && r[j] == w[j - 1];
          }
        }
      }
    }
  }

  /** Adding a notification under a fresh id and then dismissing that id
      gives back the queue as it was before the add. */
  lemma AddThenDismiss(q: seq<ToastNotification>, n: ToastNotification, id: string)
    requires !HasId(q, id)
    ensures Without(q + [Stamp(n, id)], id) == q
  {
    WithoutAppend(q, [Stamp(n, id)], id);
    WithoutUnchangedIff(q, id);
  }

  /** One call on the queue: an add under a generated id, or a dismissal,
      either manual or run by a timer. */
  datatype Op = AddOp(notification: ToastNotification, freshId: string) | DismissOp(id: string)

  /** The list after one call. */
  function Step(q: seq<ToastNotification>, op: Op): (r: seq<ToastNotification>)
    ensures op.AddOp? ==> |r| == |q| + 1 && r[..|q|] == q && r[|q|].id == op.freshId
    ensures op.DismissOp? ==> |r| <= |q| && !HasId(r, op.id)
  {
    match op
    case AddOp(n, id) => q + [Stamp(n, id)]
    case DismissOp(id) => Without(q, id)
  }

  /** The list after a series of calls, in order. */
  function Run(q: seq<ToastNotification>, ops: seq<Op>): (r: seq<ToastNotification>)
    decreases |ops|
  {
    if ops == [] then q else Run(Step(q, ops[0]), ops[1..])
  }

  /** An id that is absent from the list stays absent through any series of
      adds and dismissals that never generates it again, so a timer for it
      that fires at any later point leaves the list unchanged. */
  lemma {:induction false} StaleDismissalHarmless(q: seq<ToastNotification>, ops: seq<Op>, u: string)
    requires !HasId(q, u)
    requires forall k :: 0 <= k < |ops| && ops[k].AddOp? ==> ops[k].freshId != u
    ensures !HasId(Run(q, ops), u)
    ensures Without(Run(q, ops), u) == Run(q, ops)
    decreases |ops|
  {
    if ops == [] {
      WithoutUnchangedIff(q, u);
    } else {
      var next := Step(q, ops[0]);
      assert !HasId(next, u) by {
        match ops[0]
        case AddOp(n, id) =>
          assert next == q + [Stamp(n, id)];
        case DismissOp(id) =>
          if HasId(next, u) {
            var i :| 0 <= i < |next| && next[i].id == u;
            WithoutMembers(q, id, next[i]);
          }
      }
      assert forall k :: 0 <= k < |ops[1..]| && ops[1..][k].AddOp? ==> ops[1..][k].freshId != u by {
        forall k | 0 <= k < |ops[1..]| && ops[1..][k].AddOp? ensures ops[1..][k].freshId != u {
          assert ops[1..][k] == ops[k + 1];
        }
      }
      StaleDismissalHarmless(next, ops[1..], u);
    }
  }

  /** Two entries carrying `id` make it occur at least twice. */
  lemma {:induction false} TwoOccurrences(q: seq<ToastNotification>, id: string, i: nat, j: nat)
    requires i < j < |q| && q[i].id == id && q[j].id == id
    ensures Occurrences(q, id) >= 2
  {
    if i == 0 {
      OneOccurrence(q[1..], id, j - 1);
    } else {
      TwoOccurrences(q[1..], id, i - 1, j - 1);
    }
  }

  /** An entry carrying `id` makes it occur at least once. */
  lemma {:induction false} OneOccurrence(q: seq<ToastNotification>, id: string, j: nat)
    requires j < |q| && q[j].id == id
    ensures Occurrences(q, id) >= 1
  {
    if j > 0 {
      OneOccurrence(q[1..], id, j - 1);
    }
  }

  /** Every reference in `refs` points at an object of `heap`. */
  predicate InHeap(heap: map<nat, ToastNotification>, refs: seq<nat>) {
    forall k :: 0 <= k < |refs| ==> refs[k] in heap
  }

  /** The source's add as written, over objects: list entries are references
      into `heap`, the add writes the new id into the object `r` the caller
      passed, and appends that same reference. */
  function AliasedAdd(heap: map<nat, ToastNotification>, refs: seq<nat>, r: nat, id: string): (res: (map<nat, ToastNotification>, seq<nat>))
    requires r in heap
    ensures res.0.Keys == heap.Keys && res.0[r] == Stamp(heap[r], id)
    ensures forall x :: x in heap && x != r ==> res.0[x] == heap[x]
    ensures res.1 == refs + [r]
    ensures InHeap(heap, refs) ==> InHeap(res.0, res.1)
  {
    (heap[r := Stamp(heap[r], id)], refs + [r])
  }

  /** The notifications a list of references shows, read through `heap`. */
  function View(heap: map<nat, ToastNotification>, refs: seq<nat>): (v: seq<ToastNotification>)
    requires InHeap(heap, refs)
    ensures |v| == |refs|
    ensures forall k :: 0 <= k < |refs| ==> v[k] == heap[refs[k]]
  {
    seq(|refs|, k requires 0 <= k < |refs| => heap[refs[k]])
  }

  /** The source's dismiss as written, over objects: keeps the references
      whose object's id differs from `id`. It shows exactly the filtered
      list of the value model. */
  function AliasedDismiss(heap: map<nat, ToastNotification>, refs: seq<nat>, id: string): (r: seq<nat>)
    requires InHeap(heap, refs)
    ensures InHeap(heap, r)
    ensures View(heap, r) == Without(View(heap, refs), id)
  {
    if refs == [] then []
    else
      var rest := AliasedDismiss(heap, refs[1..], id);
      assert View(heap, refs[1..]) == View(heap, refs)[1..];
      if heap[refs[0]].id == id then rest
      else
        assert View(heap, [refs[0]] + rest) == [heap[refs[0]]] + View(heap, rest);
        [refs[0]] + rest
  }

  /** The dismiss as written keeps the very objects whose id differs, and
      no other, in their original order. */
  lemma {:induction false} AliasedDismissKeepsObjects(heap: map<nat, ToastNotification>, refs: seq<nat>, id: string, x: nat)
    requires InHeap(heap, refs)
    ensures x in AliasedDismiss(heap, refs, id) <==> x in refs && heap[x].id != id
    ensures IsSubsequence(AliasedDismiss(heap, refs, id), refs)
  {
    if refs != [] {
      var rest := AliasedDismiss(heap, refs[1..], id);
      AliasedDismissKeepsObjects(heap, refs[1..], id, x);
      assert x in refs <==> x == refs[0] || x in refs[1..];
      if heap[refs[0]].id == id {
        assert AliasedDismiss(heap, refs, id) == rest;
        if rest != [] {
          AliasedDismissKeepsObjects(heap, refs[1..], id, rest[0]);
        }
      } else {
        assert AliasedDismiss(heap, refs, id) == [refs[0]] + rest;
        assert ([refs[0]] + rest)[1..] == rest;
      }
    }
  }

  /** When the caller passes an object the list does not hold, the add as
      written shows the same list as the value model's add. */
  lemma AliasedAddFreshObject(heap: map<nat, ToastNotification>, refs: seq<nat>, r: nat, id: string)
    requires InHeap(heap, refs) && r in heap && r !in refs
    ensures View(AliasedAdd(heap, refs, r, id).0, AliasedAdd(heap, refs, r, id).1)
         == View(heap, refs) + [Stamp(heap[r], id)]
  {
    var (h, rs) := AliasedAdd(heap, refs, r, id);
    forall k | 0 <= k < |refs| ensures View(h, rs)[k] == View(heap, refs)[k] {
      assert refs[k] != r;
    }
  }

  /** Re-adding an object the list already holds, at any position `k`, makes
      that entry and the appended one both show the new id, and a single
      dismissal of that id removes at least both. */
  lemma AliasedAddBreaksUniqueIds(heap: map<nat, ToastNotification>, refs: seq<nat>, k: nat, id: string)
    requires InHeap(heap, refs) && k < |refs|
    ensures var (h, rs) := AliasedAdd(heap, refs, refs[k], id);
      var v := View(h, rs);
      v[k].id == id && v[|refs|].id == id && !UniqueIds(v) && |Without(v, id)| <= |refs| - 1
  {
    var (h, rs) := AliasedAdd(heap, refs, refs[k], id);
    var v := View(h, rs);
    TwoOccurrences(v, id, k, |refs|);
    WithoutLength(v, id);
  }

  /** The timer of the source's add reads the object's id when it fires. If
      the caller dismisses the notification by hand and then re-adds the same
      object, the object now carries the new id, and the old timer removes
      the re-added notification. In the value model, where the timer holds
      the id it was scheduled for, the late timer changes nothing. */
  lemma AliasedLateTimerDismissesReAdded(n: ToastNotification)
    ensures var (h1, r1) := AliasedAdd(map[0 := n], [], 0, "a");
      var r2 := AliasedDismiss(h1, r1, "a");
      var (h3, r3) := AliasedAdd(h1, r2, 0, "b");
      View(h3, r3) == [Stamp(n, "b")] && AliasedDismiss(h3, r3, h3[0].id) == []
    ensures Run([], [AddOp(n, "a"), DismissOp("a"), AddOp(n, "b"), DismissOp("a")]) == [Stamp(n, "b")]
  {
    var (h1, r1) := AliasedAdd(map[0 := n], [], 0, "a");
    var r2 := AliasedDismiss(h1, r1, "a");
    assert r1 == [0] && r2 == [];
    var (h3, r3) := AliasedAdd(h1, r2, 0, "b");
    assert r3 == [0] && h3[0].id == "b";
    var ops := [AddOp(n, "a"), DismissOp("a"), AddOp(n, "b"), DismissOp("a")];
    var q1, q2, q3 := [Stamp(n, "a")], [], [Stamp(n, "b")];
    assert Step([], ops[0]) == q1;
    assert Step(q1, ops[1]) == q2;
    assert Step(q2, ops[2]) == q3;
    assert Step(q3, ops[3]) == q3;
    assert Run(q3, ops[3..][1..]) == q3;
    assert Run(q3, ops[3..]) == q3;
    assert ops[2..][1..] == ops[3..] && ops[1..][1..] == ops[2..];
    assert Run(q2, ops[2..]) == q3;
    assert Run(q1, ops[1..]) == q3;
  }

  /** The process-wide notification list. */
  class ToastQueue {
    var notifications: seq<ToastNotification>
    /** Every id the generator has handed out so far. */
    ghost var issued: set<string>

    /** The queue's invariant: ids are pairwise distinct, and each was
        handed out by the generator. */
    ghost predicate Valid()
      reads this
    {
      UniqueIds(notifications) &&
      forall k :: 0 <= k < |notifications| ==> notifications[k].id in issued
    }

    /** The list starts empty. */
    constructor ()
      ensures Valid() && notifications == [] && issued == {}
    {
      notifications := [];
      issued := {};
    }

    /** Stamps a copy of `notification` with the generated `freshId` and
        appends it at the end; when its timeout is non-zero, also returns the
        dismissal to schedule. */
    method Add(notification: ToastNotification, freshId: string) returns (stamped: ToastNotification, timer: Option<Timer>)
      requires Valid()
      requires freshId !in issued
      modifies this
      ensures Valid() && issued == old(issued) + {freshId}
      ensures stamped == Stamp(notification, freshId)
      ensures notifications == old(notifications) + [stamped]
      ensures |notifications| == |old(notifications)| + 1
      ensures notifications[..|old(notifications)|] == old(notifications)
      ensures timer.Some? <==> notification.timeout != 0
      ensures timer.Some? ==> timer.value == Timer(freshId, notification.timeout)
      ensures forall u :: u in old(issued) && !HasId(old(notifications), u) ==> !HasId(notifications, u)
    {
      stamped := Stamp(notification, freshId);
      notifications := notifications + [stamped];
      issued := issued + {freshId};
      if notification.timeout != 0 {
        timer := Some(Timer(stamped.id, notification.timeout));
      } else {
        timer := None;
      }
    }

    /** Keeps only the notifications whose id differs from `id`. */
    method Dismiss(id: string)
      requires Valid()
      modifies this
      ensures Valid() && issued == old(issued)
      ensures notifications == Without(old(notifications), id)
      ensures !HasId(notifications, id)
      ensures !HasId(old(notifications), id) ==> notifications == old(notifications)
      ensures forall u :: !HasId(old(notifications), u) ==> !HasId(notifications, u)
    {
      var q := notifications;
      WithoutUnchangedIff(q, id);
      WithoutKeepsUnique(q, id);
      forall k | 0 <= k < |Without(q, id)| ensures Without(q, id)[k] in q {
        WithoutMembers(q, id, Without(q, id)[k]);
      }
      notifications := Without(q, id);
    }

    /** The deferred action a scheduled timer performs when it fires. The
        timer holds the id it was scheduled for, and once that id has left
        the list it never comes back, so a late timer changes nothing. This
        holds unless a caller re-adds the same object, which the value model
        excludes (see `AliasedLateTimerDismissesReAdded`). */
    method Expire(timer: Timer)
      requires Valid()
      modifies this
      ensures Valid() && issued == old(issued)
      ensures notifications == Without(old(notifications), timer.dismissId)
      ensures !HasId(old(notifications), timer.dismissId) ==> notifications == old(notifications)
    {
      Dismiss(timer.dismissId);
    }
  }
}

