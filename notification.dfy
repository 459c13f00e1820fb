/**
 * The WhatsApp message to reception, as an event in a ghost log. Sending is
 * best-effort: its result is ignored, so only the attempt is recorded.
 */
module Notification {
  import opened Appointments

  /**
   * One notification. The message text names only the slot's time and the
   * holder reference; `slotId` is not sent, it identifies the event in the log.
   */
  datatype Notice = Notice(slotId: int, slotTime: int, callSid: string)

  class ReceptionChannel {
    /** Every notification attempted, in order. */
    ghost var sent: seq<Notice>

    constructor ()
      ensures sent == []
    {
      sent := [];
    }

    /** `send_whatsapp_notification(slot, callSid)`. */
    method Notify(slot: Row, callSid: string)
      modifies this
      ensures sent == old(sent) + [Notice(slot.id, slot.slotTime, callSid)]
    {
      sent := sent + [Notice(slot.id, slot.slotTime, callSid)];
    }
  }
}
