/** The toast notification list behind `useToast`: a list the hook replaces
    on every change, and the timers that remove a toast after its duration. */
module Toasts {
  import opened Wrappers

  datatype ToastType = Success | Error | Warning | Info

  datatype Toast = Toast(id: string, message: string, kind: ToastType, duration: int)

  /** A pending `setTimeout` that hides the toast `id` after `delay` ms. */
  datatype Timer = Timer(id: string, delay: int)

  /** How long a toast stays when the caller gives no duration. */
  const DefaultDuration: int := 4000

  /** `toasts.filter((toast) => toast.id !== id)`. */
  function WithoutId(toasts: seq<Toast>, id: string): (r: seq<Toast>)
    ensures |r| <= |toasts|
    ensures forall k :: 0 <= k < |r| ==> r[k].id != id && r[k] in toasts
    ensures forall k :: 0 <= k < |toasts| && toasts[k].id != id ==> toasts[k] in r
  {
    if toasts == [] then []
    else
      var rest := WithoutId(toasts[1..], id);
      assert forall k :: 0 <= k < |rest| ==> rest[k] in toasts;
      if toasts[0].id == id then rest else [toasts[0]] + rest
  }

  /** The ids of the toasts, in order. */
  function Ids(toasts: seq<Toast>): (r: seq<string>)
    ensures |r| == |toasts| && forall k :: 0 <= k < |toasts| ==> r[k] == toasts[k].id
  {
    seq(|toasts|, k requires 0 <= k < |toasts| => toasts[k].id)
  }

  /** Filtering a concatenation filters each part and keeps their order. */
  lemma {:induction false} WithoutIdAppend(a: seq<Toast>, b: seq<Toast>, id: string)
    ensures WithoutId(a + b, id) == WithoutId(a, id) + WithoutId(b, id)
  {
    if a == [] {
      assert a + b == b;
    } else {
      assert (a + b)[1..] == a[1..] + b;
      WithoutIdAppend(a[1..], b, id);
    }
  }

  /** Hiding an id no toast carries leaves the list as it is. */
  lemma {:induction false} WithoutAbsentId(toasts: seq<Toast>, id: string)
    requires id !in Ids(toasts)
    ensures WithoutId(toasts, id) == toasts
  {
    if toasts != [] {
      assert Ids(toasts[1..]) == Ids(toasts)[1..];
      WithoutAbsentId(toasts[1..], id);
    }
  }

  /** Hiding the same id twice is the same as hiding it once. */
  lemma {:induction false} WithoutIdIdempotent(toasts: seq<Toast>, id: string)
    ensures WithoutId(WithoutId(toasts, id), id) == WithoutId(toasts, id)
  {
    var r := WithoutId(toasts, id);
    assert id !in Ids(r) by {
      forall k | 0 <= k < |r| ensures Ids(r)[k] != id {
      }
    }
    WithoutAbsentId(r, id);
  }

  /** Showing a toast under a fresh id and then hiding that id gives back
      the list as it was. */
  lemma {:induction false} ShowThenHide(toasts: seq<Toast>, t: Toast)
    requires t.id !in Ids(toasts)
    ensures WithoutId(toasts + [t], t.id) == toasts
  {
    WithoutIdAppend(toasts, [t], t.id);
    WithoutAbsentId(toasts, t.id);
    assert [t][1..] == [];
  }

  /** The `toasts` state of one `useToast` hook. */
  class ToastStore {
    var toasts: seq<Toast>

    constructor()
      ensures toasts == []
    {
      toasts := [];
    }

    /** `showToast(message, type, duration = 4000)`: `id` is the random id
        the hook draws. The new toast goes last; a positive duration
        schedules its removal. */
    method ShowToast(message: string, kind: ToastType, id: string, duration: int := DefaultDuration)
      returns (timer: Option<Timer>)
      modifies this
      ensures toasts == old(toasts) + [Toast(id, message, kind, duration)]
      ensures timer == if duration > 0 then Some(Timer(id, duration)) else None
    {
      toasts := toasts + [Toast(id, message, kind, duration)];
      if duration > 0 {
        timer := Some(Timer(id, duration));
      } else {
        timer := None;
      }
    }

    /** `hideToast(id)`: every toast with that id goes, the rest stay in order. */
    method HideToast(id: string)
      modifies this
      ensures toasts == WithoutId(old(toasts), id)
    {
      toasts := WithoutId(toasts, id);
    }

    /** A timer going off applies the same filter as `hideToast`. */
    method Expire(timer: Timer)
      modifies this
      ensures toasts == WithoutId(old(toasts), timer.id)
    {
      HideToast(timer.id);
    }

    /** `clearAllToasts()`. */
    method ClearAllToasts()
      modifies this
      ensures toasts == []
    {
      toasts := [];
    }
  }
}
