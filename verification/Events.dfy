/** Spool lines, event ids and queue rows. */
module Events {
  import opened Basics
  import opened QueuePolicy

  type BootId = nat
  type SegmentName = nat

  /** A line's type and the class a fixed table of types gives it. */
  datatype EventType = EventType(name: string, cls: Class)

  /**
    One spool line. `token` stands for its bytes, `utf8` says whether they are text, and
    `size` is its detail's encoded size. A line without an `event` does not parse; a line
    without a readable `ts` is stamped when it is parsed.
   */
  datatype Line = Line(token: nat, utf8: bool, size: nat, ts: Option<Instant>, event: Option<EventType>)

  /**
    A derived id is a digest of what names the line, taken as injective, under the
    line's timestamp; any other id is minted fresh.
   */
  datatype EventId =
    | Derived(ts: Instant, boot: BootId, segment: SegmentName, index: nat, line: Line)
    | Minted(serial: nat)

  datatype Row = Row(eventId: EventId, cls: Class, bytes: nat, queuedAt: Instant, line: Line)
}
