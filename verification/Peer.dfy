/** What an announce tells the tracker about this peer. */
module Peer {
  import opened Bytes

  /** The counters reported to the tracker. */
  datatype PeerState = PeerState(uploaded: u64, downloaded: u64, left: u64)

  /** `NoEvent` is a regular announce. */
  datatype AnnounceEvent = Started | Completed | Stopped | NoEvent
}
