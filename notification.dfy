/** The notification message: a box with a header (its type), a body (its message) and a
    timer bar that runs for its duration. Showing one removes whichever notification was
    shown last (kept in a slot shared by all instances), attaches the new one and starts a
    timer that removes it again. The page is a `Document`: the notifications attached to it,
    the shared slot, and the pending timers, each with the notification it will remove. */
module Notification {
  import opened Common

  class Document {
    var attached: set<NotificationMessage>
    /** `NotificationMessage.activeNotification`. */
    var active: Option<NotificationMessage>
    /** The timers set and not yet cleared or fired, by id, with their notifications. */
    var timers: map<nat, NotificationMessage>
    var nextTimer: nat

    constructor()
      ensures attached == {} && active == None && timers == map[] && nextTimer == 0
      ensures Valid()
    {
      attached, active, timers, nextTimer := {}, None, map[], 0;
    }

    /** Every attached notification still has its element, and new timer ids are unused. */
    ghost predicate Valid()
      reads this, attached
    {
      (forall n :: n in attached ==> n.hasElement) &&
      (forall id :: id in timers ==> id < nextTimer)
    }

    /** At most one notification is on the page, and it is the one in the shared slot. */
    ghost predicate SingleShown()
      reads this
    {
      forall n :: n in attached ==> active == Some(n)
    }

    /** A pending timer fires: its callback removes its notification. */
    method Fire(id: nat)
      requires Valid() && id in timers
      modifies this
      ensures Valid() && active == old(active) && nextTimer == old(nextTimer)
      ensures attached == old(attached) - {old(timers[id])}
      ensures timers == old(timers) - {id} - old(timers[id].TimerIds())
      ensures old(SingleShown()) ==> SingleShown()
    {
      var owner := timers[id];
      timers := timers - {id};
      owner.Remove(this);
    }
  }

  class NotificationMessage {
    const message: string
    const duration: int
    /** The notification's `type`: its CSS class and its header. */
    const kind: string
    /** Whether `this.element` is still set (`destroy` clears it). */
    var hasElement: bool
    /** The id of the last timer set by `show`. */
    var timer: Option<nat>

    /** The constructor: an absent message is empty, the duration defaults to 2000 ms and the
        type to `success`; the element is rendered at once, detached. */
    constructor(message: Option<string>, duration: Option<int>, kind: Option<string>)
      ensures this.message == OrElse(message, "") && this.duration == OrElse(duration, 2000)
      ensures this.kind == OrElse(kind, "success")
      ensures hasElement && timer == None
    {
      this.message := OrElse(message, "");
      this.duration := OrElse(duration, 2000);
      this.kind := OrElse(kind, "success");
      hasElement := true;
      timer := None;
    }

    /** The id of the last timer `show` set, if any. */
    function TimerIds(): set<nat>
      reads this
    {
      if timer.Some? then {timer.value} else {}
    }

    /** `remove()`: the notification's last timer is cleared and its element, if it still
        has one, leaves the page. Nothing else changes. */
    method Remove(doc: Document)
      requires doc.Valid()
      modifies doc
      ensures doc.Valid() && doc.active == old(doc.active) && doc.nextTimer == old(doc.nextTimer)
      ensures doc.attached == old(doc.attached) - {this}
      ensures doc.timers == old(doc.timers) - TimerIds()
      ensures this !in doc.attached
      ensures old(doc.SingleShown()) ==> doc.SingleShown()
    {
      if timer.Some? {
        doc.timers := doc.timers - {timer.value};
      }
      if hasElement {
        doc.attached := doc.attached - {this};
      }
    }

    /** `show()`: the notification in the shared slot is removed, this one is attached, a
        timer is set to remove it after its duration, and it takes the slot. A destroyed
        notification has no element to show. */
    method Show(doc: Document)
      requires doc.Valid() && hasElement
      modifies this, doc
      ensures doc.Valid() && hasElement
      ensures doc.active == Some(this) && this in doc.attached
      ensures doc.attached == (old(doc.attached) - (if old(doc.active).Some? then {old(doc.active).value} else {})) + {this}
      ensures timer == Some(old(doc.nextTimer)) && doc.nextTimer == old(doc.nextTimer) + 1
      ensures doc.timers ==
        (old(doc.timers) - old(if doc.active.Some? then doc.active.value.TimerIds() else {}))[timer.value := this]
      ensures old(doc.SingleShown()) ==> doc.SingleShown()
    {
      if doc.active.Some? {
        doc.active.value.Remove(doc);
      }
      doc.attached := doc.attached + {this};
      timer := Some(doc.nextTimer);
      doc.timers := doc.timers[doc.nextTimer := this];
      doc.nextTimer := doc.nextTimer + 1;
      doc.active := Some(this);
    }

    /** `destroy()` as written: after `remove()` the element is dropped and the shared slot
        is emptied, even when another notification holds it. */
    method DestroyAsWritten(doc: Document)
      requires doc.Valid()
      modifies this, doc
      ensures doc.Valid() && !hasElement && doc.active == None
      ensures doc.attached == old(doc.attached) - {this}
      ensures doc.timers == old(doc.timers) - TimerIds()
    {
      Remove(doc);
      hasElement := false;
      doc.active := None;
    }

    /** `destroy()` as intended: the slot is emptied only when this notification holds it, so
        the next `show` still removes the one on the page. */
    method Destroy(doc: Document)
      requires doc.Valid()
      modifies this, doc
      ensures doc.Valid() && !hasElement && this !in doc.attached
      ensures doc.attached == old(doc.attached) - {this}
      ensures doc.active == (if old(doc.active) == Some(this) then None else old(doc.active))
      ensures doc.timers == old(doc.timers) - TimerIds()
      ensures old(doc.SingleShown()) ==> doc.SingleShown()
    {
      Remove(doc);
      hasElement := false;
      if doc.active == Some(this) {
        doc.active := None;
      }
    }
  }

  /** Destroying a notification that is not on the page while another one is shown empties
      the shared slot, so the next notification is shown beside the other one: two are
      attached at once. */
  method DestroyAsWrittenShowsTwo() returns (doc: Document, second: NotificationMessage, third: NotificationMessage)
    ensures doc.attached == {second, third} && second != third
    ensures !doc.SingleShown()
  {
    doc := new Document();
    var first := new NotificationMessage(Some("first"), None, None);
    second := new NotificationMessage(Some("second"), None, None);
    third := new NotificationMessage(Some("third"), None, None);
    first.Show(doc);
    second.Show(doc);
    first.DestroyAsWritten(doc);
    third.Show(doc);
  }

  /** With the intended `destroy`, the same steps leave only the last notification shown. */
  method DestroyShowsOne() returns (doc: Document, third: NotificationMessage)
    ensures doc.attached == {third} && doc.SingleShown()
  {
    doc := new Document();
    var first := new NotificationMessage(Some("first"), None, None);
    var second := new NotificationMessage(Some("second"), None, None);
    third := new NotificationMessage(Some("third"), None, None);
    first.Show(doc);
    second.Show(doc);
    first.Destroy(doc);
    third.Show(doc);
  }
}
