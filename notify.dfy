/**
 * The notification toast: `showNotification` removes the toast already on
 * the page, if any, and appends a new one; the close button and the
 * five-second timer each remove their own toast later.
 */
module Notify {

  const SuccessIcon: string := "fa-check-circle"
  const ErrorIcon: string := "fa-exclamation-circle"
  /** The kind `showNotification` uses when its caller gives none. */
  const DefaultKind: string := "success"
  /** Milliseconds before a toast dismisses itself. */
  const AutoDismissDelay: nat := 5000

  /** A `.notification` node; `id` stands for the node's identity. */
  datatype Notification = Notification(id: nat, message: string, kind: string)
  {
    /** The node's class attribute. */
    function ClassName(): string
    {
      "notification " + kind
    }

    /** The icon inside the toast: the check mark for "success", the exclamation mark for every other kind. */
    function Icon(): string
    {
      if kind == "success" then SuccessIcon else ErrorIcon
    }
  }

  /**
   * The toasts on the page after `showNotification` has removed the first
   * one found, if any, and appended `n`.
   */
  function AfterShow(live: seq<Notification>, n: Notification): (r: seq<Notification>)
    ensures |live| <= 1 ==> r == [n]
    ensures |r| == (if |live| == 0 then 1 else |live|) && r[|r| - 1] == n
    ensures forall m :: m in r && m != n ==> m in live
  {
    (if |live| > 0 then live[1..] else []) + [n]
  }

  /** The toasts on the page after `remove()` on the toast `id`; a toast already gone stays gone. */
  function Without(live: seq<Notification>, id: nat): (r: seq<Notification>)
    ensures forall m :: m in r <==> m in live && m.id != id
    ensures |r| <= |live|
  {
    if |live| == 0 then []
    else if live[0].id == id then Without(live[1..], id)
    else [live[0]] + Without(live[1..], id)
  }

  /** Removing a toast twice is the same as removing it once, so the close button and the timer never clash. */
  lemma {:induction false} WithoutIdempotent(live: seq<Notification>, id: nat)
    ensures Without(Without(live, id), id) == Without(live, id)
  {
    if |live| > 0 {
      WithoutIdempotent(live[1..], id);
      if live[0].id != id {
        assert ([live[0]] + Without(live[1..], id))[1..] == Without(live[1..], id);
      }
    }
  }

  /** Removing a toast that is not on the page changes nothing. */
  lemma {:induction false} WithoutAbsent(live: seq<Notification>, id: nat)
    requires forall m :: m in live ==> m.id != id
    ensures Without(live, id) == live
  {
    if |live| > 0 {
      assert forall m :: m in live[1..] ==> m in live;
      WithoutAbsent(live[1..], id);
      assert [live[0]] + live[1..] == live;
    }
  }

  /** The toasts on the page. */
  class Notifier {
    var live: seq<Notification>
    /** The id the next toast gets. */
    var nextId: nat

    /** At most one toast at a time, and every id on the page was handed out already. */
    ghost predicate Valid()
      reads this
    {
      |live| <= 1 && forall m :: m in live ==> m.id < nextId
    }

    constructor ()
      ensures Valid() && live == []
    {
      live := [];
      nextId := 0;
    }

    /** `showNotification(message, kind)`: replace the toast on the page with a new one. */
    method Show(message: string, kind: string := DefaultKind) returns (n: Notification)
      requires Valid()
      modifies this
      ensures Valid()
      ensures n == Notification(old(nextId), message, kind) && nextId == old(nextId) + 1
      ensures live == AfterShow(old(live), n)
      ensures live == [n]
    {
      n := Notification(nextId, message, kind);
      var rest := if |live| > 0 then live[1..] else [];
      live := rest + [n];
      nextId := nextId + 1;
    }

    /**
     * The removal of toast `id`, once its close button was clicked or its
     * five seconds ran out, after the 300 ms slide-out.
     */
    method Dismiss(id: nat)
      requires Valid()
      modifies this
      ensures Valid() && nextId == old(nextId)
      ensures live == Without(old(live), id)
    {
      live := Without(live, id);
    }
  }

  /** A client view: two toasts shown in quick succession leave only the second on the page. */
  method ShowTwice(t: Notifier)
    requires t.Valid()
    modifies t
    ensures t.Valid() && |t.live| == 1 && t.live[0].message == "second"
  {
    var first := t.Show("first");
    var second := t.Show("second", "error");
  }
}
