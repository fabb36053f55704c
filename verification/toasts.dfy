/** The toast queue (src/hooks/useToast.ts): toasts are appended with ids
    `toast_1`, `toast_2`, ... taken from a counter that is incremented before use,
    and removed by id, either on request or when their timer fires. The timer
    itself is not modelled: adding reports which id it schedules for removal. */
module Toasts {
  import opened Seqs
  import opened Text

  /** `ToastItem['type']`. */
  datatype ToastKind = Success | Error | Warning

  /** `ToastItem`. */
  datatype Toast = Toast(id: string, kind: ToastKind, message: string)

  /** The hook's state: the visible toasts and the counter behind the ids. */
  datatype ToastState = ToastState(toasts: seq<Toast>, counter: nat)

  /** The state of a fresh hook. */
  const Initial := ToastState([], 0)

  /** `` `toast_${n}` ``. */
  function ToastId(n: nat): string
  {
    "toast_" + NatToString(n)
  }

  /** Two ids are equal exactly when their numbers are. */
  lemma ToastIdInjective(a: nat, b: nat)
    ensures ToastId(a) == ToastId(b) <==> a == b
  {
    if ToastId(a) == ToastId(b) {
      assert ToastId(a)[6..] == NatToString(a);
      assert ToastId(b)[6..] == NatToString(b);
      NatToStringInjective(a, b);
    }
  }

  /** The ids of the toasts, in order. */
  function Ids(ts: seq<Toast>): (r: seq<string>)
    ensures |r| == |ts|
    ensures forall i :: 0 <= i < |ts| ==> r[i] == ts[i].id
  {
    if |ts| == 0 then [] else [ts[0].id] + Ids(ts[1..])
  }

  /** The duration `addToast` uses when the caller gives none, in milliseconds. */
  const DefaultDuration: int := 4000

  /** What `addToast` does: the new state, and the id whose removal it schedules
      (none when `duration` is not positive). */
  datatype Added = Added(state: ToastState, scheduled: Option<string>)

  /** `addToast`: increments the counter, then appends a toast with the new id.
      A caller that leaves out the duration passes `DefaultDuration`, so its toast
      is always scheduled for removal. */
  function AddToast(s: ToastState, kind: ToastKind, message: string, duration: int): Added
  {
    var n := s.counter + 1;
    var id := ToastId(n);
    Added(ToastState(s.toasts + [Toast(id, kind, message)], n), if duration > 0 then Some(id) else None)
  }

  /** The predicate "has some other id than `id`". */
  function OtherId(id: string): Toast -> bool
  {
    (t: Toast) => t.id != id
  }

  /** `removeToast`, and what the timer does when it fires. */
  function RemoveToast(s: ToastState, id: string): ToastState
  {
    s.(toasts := Filter(s.toasts, OtherId(id)))
  }

  /** The id was issued by this hook: it is `toast_k` for some `k` up to the counter. */
  predicate Issued(id: string, counter: nat)
  {
    exists k: nat :: 1 <= k <= counter && id == ToastId(k)
  }

  /** Every visible toast carries an id the hook issued, and no two carry the same. */
  predicate WellIssued(s: ToastState)
  {
    NoDuplicates(Ids(s.toasts)) && forall i :: 0 <= i < |s.toasts| ==> Issued(s.toasts[i].id, s.counter)
  }

  /** A fresh hook has no toasts, so its ids are trivially well issued. */
  lemma InitialWellIssued()
    ensures WellIssued(Initial) && Initial.toasts == []
  {
  }

  /** Adding appends exactly one toast at the end, with the id made from the
      incremented counter, and schedules its removal when the duration is positive. */
  lemma AddToastSpec(s: ToastState, kind: ToastKind, message: string, duration: int)
    ensures var a := AddToast(s, kind, message, duration);
      a.state.counter == s.counter + 1 &&
      |a.state.toasts| == |s.toasts| + 1 &&
      a.state.toasts[..|s.toasts|] == s.toasts &&
      a.state.toasts[|s.toasts|] == Toast(ToastId(s.counter + 1), kind, message) &&
      (duration > 0 <==> a.scheduled == Some(ToastId(s.counter + 1))) &&
      (duration <= 0 <==> a.scheduled.None?)
    ensures AddToast(s, kind, message, DefaultDuration).scheduled == Some(ToastId(s.counter + 1))
  {
    ToastIdInjective(s.counter + 1, s.counter + 1);
  }

  /** The new id is not the id of any visible toast. */
  lemma NewIdIsFresh(s: ToastState)
    requires WellIssued(s)
    ensures ToastId(s.counter + 1) !in Ids(s.toasts)
  {
    forall i | 0 <= i < |s.toasts| ensures s.toasts[i].id != ToastId(s.counter + 1) {
      var k: nat :| 1 <= k <= s.counter && s.toasts[i].id == ToastId(k);
      ToastIdInjective(k, s.counter + 1);
    }
  }

  /** Adding keeps the ids well issued, so all visible ids stay distinct. */
  lemma AddKeepsWellIssued(s: ToastState, kind: ToastKind, message: string, duration: int)
    requires WellIssued(s)
    ensures WellIssued(AddToast(s, kind, message, duration).state)
  {
    var r := AddToast(s, kind, message, duration).state;
    var t := Toast(ToastId(s.counter + 1), kind, message);
    NewIdIsFresh(s);
    AppendFreshNoDuplicates(Ids(s.toasts), t.id);
    assert Ids(r.toasts) == Ids(s.toasts) + [t.id];
    forall i | 0 <= i < |r.toasts| ensures Issued(r.toasts[i].id, r.counter) {
      if i < |s.toasts| {
        var k: nat :| 1 <= k <= s.counter && s.toasts[i].id == ToastId(k);
        assert r.toasts[i] == s.toasts[i];
      } else {
        assert r.toasts[i].id == ToastId(r.counter);
      }
    }
  }

  /** The ids of the toasts kept by removal are the ids kept by the same test. */
  lemma {:induction false} IdsOfRemoved(ts: seq<Toast>, id: string)
    ensures Ids(Filter(ts, OtherId(id))) == Filter(Ids(ts), (x: string) => x != id)
    decreases |ts|
  {
    if |ts| > 0 {
      IdsOfRemoved(ts[1..], id);
      assert Ids(ts)[1..] == Ids(ts[1..]);
    }
  }

  /** Removing deletes exactly the toasts with that id, keeps the order of the rest,
      leaves the counter alone, and changes nothing for an unknown id. */
  lemma RemoveToastSpec(s: ToastState, id: string)
    ensures forall t :: t in RemoveToast(s, id).toasts <==> t in s.toasts && t.id != id
    ensures IsSubsequence(RemoveToast(s, id).toasts, s.toasts)
    ensures RemoveToast(s, id).counter == s.counter
    ensures id !in Ids(s.toasts) ==> RemoveToast(s, id) == s
  {
    FilterContents(s.toasts, OtherId(id));
    if id !in Ids(s.toasts) {
      forall i | 0 <= i < |s.toasts| ensures OtherId(id)(s.toasts[i]) {
        assert Ids(s.toasts)[i] == s.toasts[i].id;
      }
      FilterAll(s.toasts, OtherId(id));
    }
  }

  /** Removing keeps the ids well issued. */
  lemma RemoveKeepsWellIssued(s: ToastState, id: string)
    requires WellIssued(s)
    ensures WellIssued(RemoveToast(s, id))
  {
    var r := RemoveToast(s, id);
    assert NoDuplicates(Ids(r.toasts)) by {
      IdsOfRemoved(s.toasts, id);
      FilterContents(Ids(s.toasts), (x: string) => x != id);
      SubsequenceKeepsNoDuplicates(Ids(r.toasts), Ids(s.toasts));
    }
    KeptAreIssued(s, id);
  }

  /** Every toast kept by removal was visible before, so its id was issued. */
  lemma KeptAreIssued(s: ToastState, id: string)
    requires forall i :: 0 <= i < |s.toasts| ==> Issued(s.toasts[i].id, s.counter)
    ensures forall i :: 0 <= i < |RemoveToast(s, id).toasts| ==> Issued(RemoveToast(s, id).toasts[i].id, s.counter)
  {
    var r := RemoveToast(s, id).toasts;
    FilterContents(s.toasts, OtherId(id));
    forall i | 0 <= i < |r| ensures Issued(r[i].id, s.counter) {
      assert r[i] in s.toasts;
      var j :| 0 <= j < |s.toasts| && s.toasts[j] == r[i];
      assert Issued(s.toasts[j].id, s.counter);
    }
  }

  /** Removing the toast just added gives back the toasts as they were, and so does
      the expiry of the timer it scheduled. */
  lemma RemoveUndoesAdd(s: ToastState, kind: ToastKind, message: string, duration: int)
    requires WellIssued(s)
    ensures RemoveToast(AddToast(s, kind, message, duration).state, ToastId(s.counter + 1)).toasts == s.toasts
    ensures var a := AddToast(s, kind, message, duration);
      a.scheduled.Some? ==> RemoveToast(a.state, a.scheduled.value).toasts == s.toasts
  {
    var id := ToastId(s.counter + 1);
    var t := Toast(id, kind, message);
    NewIdIsFresh(s);
    FilterAppend(s.toasts, t, OtherId(id));
    forall i | 0 <= i < |s.toasts| ensures OtherId(id)(s.toasts[i]) {
      assert Ids(s.toasts)[i] == s.toasts[i].id;
    }
    FilterAll(s.toasts, OtherId(id));
  }
}
