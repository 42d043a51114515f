/**
 * The stored chat ("barrage") event, as the reports see it. The free-form JSON
 * payload `chatmsg` is reduced to the two fields the reports read.
 */
module Models {
  import opened Wrappers

  datatype Event = Event(
    id: int,
    userid: string,
    nickname: string,
    time: int,              // microseconds since the epoch, UTC
    brid: Option<string>,   // text of `chatmsg->>'brid'`; None when absent or JSON null
    hasNc: bool             // `chatmsg->'nc' IS NOT NULL`: the key 'nc' is present
  )

  /** A fan-club event: the payload's room affiliation is the configured room. */
  predicate IsFan(e: Event, roomId: string) {
    e.brid == Some(roomId)
  }

  /** A noble event: the payload carries the 'nc' marker. */
  predicate IsNoble(e: Event) {
    e.hasNc
  }
}
