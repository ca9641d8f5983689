/**
 * `main`: fetch the feed once; give up with a message when it returned
 * nothing, otherwise show the table, announce how many stories it shows and
 * enter the command loop on the fetched list.
 */
module App {
  import opened Feed
  import opened Interactive

  /** How a run of the program went. */
  datatype Start =
    | FetchFailed                                          // "Failed to fetch stories."
    | Started(listing: Listing, shown: nat, session: Session)

  /** `main`, with the first fetch, the clock and the answers to the prompt supplied. */
  method Launch(fetched: seq<Entry>, now: int, turns: seq<Turn>) returns (start: Start)
    ensures start.FetchFailed? <==> fetched == []
    ensures start.Started? ==> start.listing.Table? && |start.listing.rows| == start.shown
    ensures start.Started? ==> start.shown == ShownCount(fetched) && 1 <= start.shown <= MaxRows
    ensures start.Started? ==> forall i :: 0 <= i < start.shown ==> start.listing.rows[i] == RowOf(i + 1, fetched[i], now)
    ensures start.Started? ==> start.session == Run(fetched, turns) && start.session.entries != []
  {
    if fetched == [] {
      return FetchFailed;
    }
    var listing := DisplayFeeds(fetched, now);
    var shown := ShownCount(fetched);
    var held, outcomes, running := InteractiveMode(fetched, turns);
    RunKeepsEntries(fetched, turns);
    start := Started(listing, shown, Session(held, outcomes, running));
  }
}
