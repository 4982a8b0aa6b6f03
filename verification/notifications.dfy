/** The `.notification` elements attached to the page body, in document
    order. Showing a notification removes the first existing one and appends
    the new one; its close button and its five-second timer each remove that
    notification only, and do nothing once it is gone. */
module Notifications {

  /** One notification element; `id` tells apart elements with equal text. */
  datatype Notification = Notification(id: nat, message: string)

  /** The list after showing `n`: `querySelector('.notification')` finds the
      first notification, which is removed, and `n` is appended. Showing
      pre-empts exactly one notification (the first, if any), keeps the rest
      in order, and puts the new one last. */
  function AfterShow(s: seq<Notification>, n: Notification): (r: seq<Notification>)
    ensures |r| == (if s == [] then 1 else |s|) && r[|r| - 1] == n
    ensures s != [] ==> r[..|r| - 1] == s[1..]
    ensures s == [] ==> r == [n]
  {
    (if s == [] then [] else s[1..]) + [n]
  }

  /** The list after `notification.remove()` on the element with `id`; an
      element already detached is left alone. */
  function Without(s: seq<Notification>, id: nat): (r: seq<Notification>)
    ensures |r| <= |s|
    ensures forall x :: x in r <==> x in s && x.id != id
  {
    if s == [] then []
    else if s[0].id == id then Without(s[1..], id)
    else [s[0]] + Without(s[1..], id)
  }

  predicate AtMostOne(s: seq<Notification>)
  {
    |s| <= 1
  }

  /** Element identities in document order: created later, attached later. */
  predicate IdsIncreasing(s: seq<Notification>)
  {
    forall i, j :: 0 <= i < j < |s| ==> s[i].id < s[j].id
  }

  predicate IdsBelow(s: seq<Notification>, bound: nat)
  {
    forall i :: 0 <= i < |s| ==> s[i].id < bound
  }

  predicate HasId(s: seq<Notification>, id: nat)
  {
    exists i :: 0 <= i < |s| && s[i].id == id
  }

  // ---------------------------------------------------------------------
  // Properties

  /** The single-notification invariant: from at most one notification,
      showing leaves exactly the new one, and removing leaves at most one. */
  lemma SingleNotification(s: seq<Notification>, n: Notification, id: nat)
    requires AtMostOne(s)
    ensures AfterShow(s, n) == [n]
    ensures AtMostOne(Without(s, id))
  {
  }

  /** Removal keeps the remaining elements in document order. */
  lemma {:induction false} WithoutKeepsOrder(s: seq<Notification>, id: nat)
    requires IdsIncreasing(s)
    ensures IdsIncreasing(Without(s, id))
    decreases |s|
  {
    if s != [] {
      assert IdsIncreasing(s[1..]);
      WithoutKeepsOrder(s[1..], id);
      var t := Without(s[1..], id);
      if s[0].id != id {
        forall j | 0 <= j < |t| ensures s[0].id < t[j].id {
          assert t[j] in s[1..];
        }
      }
    }
  }

  /** Removing an element that is not attached changes nothing: a timer that
      fires after the close button was used, or after the notification was
      pre-empted. */
  lemma {:induction false} WithoutAbsent(s: seq<Notification>, id: nat)
    requires !HasId(s, id)
    ensures Without(s, id) == s
    decreases |s|
  {
    if s != [] {
      WithoutAbsent(s[1..], id);
    }
  }

  /** With distinct identities, removing an attached element removes exactly
      that one. */
  lemma {:induction false} WithoutRemovesOne(s: seq<Notification>, id: nat)
    requires IdsIncreasing(s) && HasId(s, id)
    ensures |Without(s, id)| == |s| - 1 && !HasId(Without(s, id), id)
    decreases |s|
  {
    var r := Without(s, id);
    if s[0].id == id {
      WithoutAbsent(s[1..], id);
    } else {
      var i :| 0 <= i < |s| && s[i].id == id;
      assert s[1..][i - 1].id == id;
      assert IdsIncreasing(s[1..]);
      WithoutRemovesOne(s[1..], id);
    }
  }

  /** A notification's own close button or timer clears the page when it was
      the only one shown. */
  lemma CloseOwn(s: seq<Notification>, n: Notification)
    requires AtMostOne(s) && IdsBelow(s, n.id)
    ensures Without(AfterShow(s, n), n.id) == []
  {
    SingleNotification(s, n, n.id);
  }

  /** The timer of a pre-empted notification does not remove its successor. */
  lemma StaleTimerKeepsSuccessor(m: Notification, n: Notification)
    requires m.id != n.id
    ensures Without(AfterShow([m], n), m.id) == [n]
  {
    assert AfterShow([m], n) == [n];
  }

  // ---------------------------------------------------------------------
  // The document's notification list, changed in place

  class NotificationArea {
    var shown: seq<Notification>
    var nextId: nat

    ghost predicate Valid()
      reads this
    {
      IdsIncreasing(shown) && IdsBelow(shown, nextId)
    }

    constructor ()
      ensures Valid() && shown == [] && nextId == 0
    {
      shown, nextId := [], 0;
    }

    /** showNotification(message): returns the new element's identity. */
    method Show(message: string) returns (id: nat)
      requires Valid()
      modifies this
      ensures Valid()
      ensures id == old(nextId) && nextId == old(nextId) + 1
      ensures shown == AfterShow(old(shown), Notification(id, message))
    {
      if shown != [] {
        shown := shown[1..];
      }
      id := nextId;
      shown := shown + [Notification(id, message)];
      nextId := nextId + 1;
    }

    /** The close button's handler, or the timer's, for element `id`. */
    method Dismiss(id: nat)
      requires Valid()
      modifies this
      ensures Valid()
      ensures shown == Without(old(shown), id) && nextId == old(nextId)
    {
      WithoutKeepsOrder(shown, id);
      shown := Without(shown, id);
    }
  }
}
