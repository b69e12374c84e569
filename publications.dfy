/** The publications section: a visibility flag driven by the scroll offset,
    and the list loaded from the publications data feed with a fallback. */
module Publications {
  import opened Wrappers

  datatype Publication = Publication(
    id: int, title: string, authors: string, journal: string, year: string,
    url: string, color: string, image: Option<string>)

  /** The single entry shown when the feed cannot be loaded. */
  const Placeholder: Publication := Publication(
    1, "Example Publication Title", "Author 1, Author 2, Author 3", "Journal of Research",
    "2023", "https://example.com/publication1", "#1E293B", Some("/images/publication-placeholder.jpg"))

  const ScrollThreshold: int := 50

  /** What `fetch` and `response.json()` produced: the fetch itself threw, or a
      response with its `ok` flag and its parsed body (None when parsing threw). */
  datatype FetchOutcome = FetchThrew | Received(ok: bool, json: Option<seq<Publication>>)

  /** The `try` block ran to `setPublications(data)` without throwing. */
  predicate Loaded(outcome: FetchOutcome)
  {
    outcome.Received? && outcome.ok && outcome.json.Some?
  }

  /** The list after `fetchPublications` has settled. */
  function LoadedList(outcome: FetchOutcome): (r: seq<Publication>)
    ensures Loaded(outcome) ==> r == outcome.json.value
    ensures !Loaded(outcome) ==> r == [Placeholder] && r[0].id == 1
  {
    match outcome
    case Received(true, Some(data)) => data
    case _ => [Placeholder]
  }

  /** A response that is not ok is handled exactly like a fetch that threw. */
  lemma NotOkLikeThrown(json: Option<seq<Publication>>)
    ensures LoadedList(Received(false, json)) == LoadedList(FetchThrew)
  {
  }

  /** The component's state. */
  class PublicationsView {
    var publications: seq<Publication>
    var hasScrolled: bool

    /** `useState([])` and `useState(false)`. */
    constructor ()
      ensures publications == [] && !hasScrolled
    {
      publications, hasScrolled := [], false;
    }

    /** `handleScroll`: the flag follows the offset and, unlike the team latch, can fall back to false. */
    method HandleScroll(scrollY: int)
      modifies this
      ensures hasScrolled == (scrollY > ScrollThreshold)
      ensures publications == old(publications)
    {
      hasScrolled := scrollY > ScrollThreshold;
    }

    /** `fetchPublications`, given what the network and the parser produced. */
    method FetchPublications(outcome: FetchOutcome)
      modifies this
      ensures publications == LoadedList(outcome)
      ensures hasScrolled == old(hasScrolled)
    {
      var threw := false;
      match outcome {
        case FetchThrew =>
          threw := true;
        case Received(ok, json) =>
          if !ok {
            threw := true;
          } else if json.None? {
            threw := true;
          } else {
            publications := json.value;
          }
      }
      if threw {
        publications := [Placeholder];
      }
    }
  }

  /** Mounting: the scroll effect runs the handler once on the current offset,
      and the fetch effect eventually settles with `outcome`. */
  method Mount(initialScrollY: int, outcome: FetchOutcome) returns (view: PublicationsView)
    ensures fresh(view)
    ensures view.hasScrolled == (initialScrollY > ScrollThreshold)
    ensures view.publications == LoadedList(outcome)
  {
    view := new PublicationsView();
    view.HandleScroll(initialScrollY);
    view.FetchPublications(outcome);
  }
}
