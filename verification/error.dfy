/** The search error type and the result a step or a search returns. */
module SearchErrors {
  import opened Prelude

  datatype Error = Unfinished | Unsolvable | OutOfTime | OutOfMemory {
    /** The `Display` text of each variant. */
    function Display(): string {
      match this
      case Unfinished => "Unfinished"
      case Unsolvable => "Unsolvable"
      case OutOfTime => "Out of time"
      case OutOfMemory => "Out of memory"
    }
  }

  /** The texts shown for the four variants, which tell every variant apart. */
  lemma DisplayTexts(a: Error, b: Error)
    ensures Unfinished.Display() == "Unfinished" && Unsolvable.Display() == "Unsolvable"
    ensures OutOfTime.Display() == "Out of time" && OutOfMemory.Display() == "Out of memory"
    ensures a.Display() == b.Display() <==> a == b
  {
  }

  /** `Result<Vec<State>, Error>`: a plan, or why there is none (yet). */
  datatype SearchResult<S> = Ok(plan: seq<S>) | Err(error: Error)

  /**
   * The breadth-first, depth-first and eager greedy strategies report "not finished"
   * as `None` and everything else as `Some(result)`; the lazy greedy strategy and the
   * driver use `Err(Unfinished)` instead. This maps the first encoding onto the second.
   */
  function Flatten<S>(o: Option<SearchResult<S>>): (r: SearchResult<S>)
    ensures o.None? ==> r == Err(Unfinished)
    ensures o.Some? ==> r == o.value
  {
    match o
    case None => Err(Unfinished)
    case Some(result) => result
  }
}
