/** Paging and selection in the suspects panel of src/bot/commands/state_council.py. */
module SuspectsPanel {
  import opened Wrappers

  type MemberId = int

  function TotalPages(count: nat, size: nat): nat
    requires size > 0
  {
    if count == 0 then 1 else (count + size - 1) / size
  }

  function Min(a: nat, b: nat): nat { if a < b then a else b }

  /** suspects[start:end] of a page */
  function PageOf(suspects: seq<MemberId>, page: nat, size: nat): seq<MemberId> {
    suspects[Min(page * size, |suspects|)..Min(page * size + size, |suspects|)]
  }

  function Members(suspects: seq<MemberId>): set<MemberId> {
    set m | m in suspects
  }

  /** The fields of the panel. */
  datatype State = State(page: nat, search: Option<string>, suspects: seq<MemberId>, selected: set<MemberId>)

  const INITIAL: State := State(0, None, [], {})

  /**
    One stretch of a handler between two of its awaits.  A reload awaits its listing, and a
    release the service before it and the listing after it, so any event can come in between.
   */
  datatype Event =
    | Selects(byAuthor: bool, values: set<MemberId>)
    | TurnsBack(byAuthor: bool)
    | TurnsOn(byAuthor: bool)
    | StartsSearch(keyword: Option<string>)        // a search, or a reset, up to its reload
    | ReleaseReturns(onSelection: bool)            // the service released, up to the reload
    | Reloads(listing: Option<seq<MemberId>>)      // the listing came back, or raised

  function Clamped(page: nat, total: nat): nat {
    if page < total then page else if total > 0 then total - 1 else 0
  }

  function Listing(listing: Option<seq<MemberId>>): seq<MemberId> {
    if listing.Some? then listing.value else []
  }

  function Step(s: State, e: Event, size: nat): State
    requires size > 0
  {
    match e
    case Selects(byAuthor, values) => if byAuthor then s.(selected := values) else s
    case TurnsBack(byAuthor) => if byAuthor && s.page > 0 then s.(page := s.page - 1) else s
    case TurnsOn(byAuthor) =>
      if byAuthor && s.page + 1 < TotalPages(|s.suspects|, size) then s.(page := s.page + 1) else s
    case StartsSearch(keyword) => s.(page := 0, search := if keyword == Some("") then None else keyword)
    case ReleaseReturns(onSelection) => if onSelection then s.(selected := {}) else s
    case Reloads(listing) =>
      var suspects := Listing(listing);
      s.(page := Clamped(s.page, TotalPages(|suspects|, size)), suspects := suspects,
         selected := s.selected * Members(suspects))
  }

  class Panel {
    const pageSize: nat
    var currentPage: nat
    var search: Option<string>
    var suspects: seq<MemberId>
    var selected: set<MemberId>

    ghost predicate Valid()
      reads this
    {
      pageSize >= 5
    }

    ghost function View(): State
      reads this
    {
      State(currentPage, search, suspects, selected)
    }

    constructor (size: int)
      ensures Valid() && pageSize == (if size < 5 then 5 else size) && View() == INITIAL
    {
      pageSize := if size < 5 then 5 else size;
      currentPage, suspects, selected, search := 0, [], {}, None;
    }

    /** reload after its await, with _sanitize_state. */
    method Reloaded(listing: Option<seq<MemberId>>)
      requires Valid()
      modifies this
      ensures View() == Step(old(View()), Reloads(listing), pageSize)
      ensures search == old(search) && suspects == if listing.Some? then listing.value else []
      ensures selected == old(selected) * Members(suspects)
      ensures currentPage == if old(currentPage) < TotalPages(|suspects|, pageSize) then old(currentPage)
                             else TotalPages(|suspects|, pageSize) - 1
    {
      suspects := if listing.Some? then listing.value else [];
      var total := TotalPages(|suspects|, pageSize);
      PagesExist(|suspects|, pageSize);
      if currentPage >= total {
        currentPage := if total > 0 then total - 1 else 0;
      }
      selected := selected * (set m | m in suspects);
    }

    method Select(byAuthor: bool, values: set<MemberId>)
      requires Valid()
      modifies this`selected
      ensures View() == Step(old(View()), Selects(byAuthor, values), pageSize)
      ensures selected == if byAuthor then values else old(selected)
    {
      if byAuthor {
        selected := values;
      }
    }

    method PreviousPage(byAuthor: bool)
      requires Valid()
      modifies this`currentPage
      ensures View() == Step(old(View()), TurnsBack(byAuthor), pageSize)
      ensures currentPage == if byAuthor && old(currentPage) > 0 then old(currentPage) - 1 else old(currentPage)
    {
      if byAuthor && currentPage != 0 {
        currentPage := currentPage - 1;
      }
    }

    method NextPage(byAuthor: bool)
      requires Valid()
      modifies this`currentPage
      ensures View() == Step(old(View()), TurnsOn(byAuthor), pageSize)
      ensures currentPage == if byAuthor && old(currentPage) + 1 < TotalPages(|suspects|, pageSize)
                             then old(currentPage) + 1 else old(currentPage)
    {
      if byAuthor && currentPage + 1 < TotalPages(|suspects|, pageSize) {
        currentPage := currentPage + 1;
      }
    }

    method StartSearch(keyword: Option<string>)
      requires Valid()
      modifies this`currentPage, this`search
      ensures View() == Step(old(View()), StartsSearch(keyword), pageSize)
      ensures currentPage == 0 && search == if keyword == Some("") then None else keyword
    {
      search := if keyword == Some("") then None else keyword;
      currentPage := 0;
    }

    /** handle_release and handle_auto_release between the service's return and the reload. */
    method ReleaseReturned(onSelection: bool)
      requires Valid()
      modifies this`selected
      ensures View() == Step(old(View()), ReleaseReturns(onSelection), pageSize)
    {
      if onSelection {
        selected := {};
      }
    }
  }

  // ---------------------------------------------------------------- any interleaving of the handlers

  /** The panel after any events, in whatever order the handlers' stretches come. */
  function Replay(trace: seq<Event>, size: nat): State
    requires size > 0
  {
    if trace == [] then INITIAL else Step(Replay(trace[..|trace| - 1], size), trace[|trace| - 1], size)
  }

  /** The page is always one of the pages. */
  lemma {:induction false} PageStaysInRange(trace: seq<Event>, size: nat)
    requires size > 0
    ensures Replay(trace, size).page < TotalPages(|Replay(trace, size).suspects|, size)
  {
    if trace != [] {
      var before := Replay(trace[..|trace| - 1], size);
      PageStaysInRange(trace[..|trace| - 1], size);
      PagesExist(|Replay(trace, size).suspects|, size);
    }
  }

  function After(s: State, events: seq<Event>, size: nat): State
    requires size > 0
    decreases |events|
  {
    if events == [] then s else After(Step(s, events[0], size), events[1..], size)
  }

  /** The author's turns: as many as the pages are apart, on or back. */
  function Turns(from: nat, to: nat): seq<Event> {
    if from < to then seq(to - from, _ => TurnsOn(true)) else seq(from - to, _ => TurnsBack(true))
  }

  /** The author reaches every page with exactly as many turns as it is away, and nothing else changes. */
  lemma {:induction false} EveryPageIsReached(s: State, size: nat, to: nat)
    requires size > 0 && s.page < TotalPages(|s.suspects|, size) && to < TotalPages(|s.suspects|, size)
    ensures After(s, Turns(s.page, to), size) == s.(page := to)
    decreases if s.page < to then to - s.page else s.page - to
  {
    if s.page != to {
      var turns := Turns(s.page, to);
      var next := if s.page < to then s.page + 1 else s.page - 1;
      assert turns[1..] == Turns(next, to);
      assert Step(s, turns[0], size) == s.(page := next);
      EveryPageIsReached(s.(page := next), size, to);
    }
  }

  /** Nobody but the author turns pages or selects, and a search or a reset starts on the first page. */
  lemma OthersAndSearches(s: State, size: nat, values: set<MemberId>, keyword: Option<string>)
    requires size > 0
    ensures Step(s, Selects(false, values), size) == Step(s, TurnsBack(false), size) ==
            Step(s, TurnsOn(false), size) == s
    ensures Step(s, StartsSearch(keyword), size) ==
            State(0, if keyword == Some("") then None else keyword, s.suspects, s.selected)
  {
  }

  /** The author chose the member in the i-th event, and nothing since took it away. */
  predicate Standing(trace: seq<Event>, i: nat, m: MemberId)
    requires i < |trace|
  {
    && trace[i].Selects? && trace[i].byAuthor && m in trace[i].values
    && forall j :: i < j < |trace| ==> !TakesAway(trace[j], m)
  }

  /** Another choice of the author, a release of the selection, or a listing without the member. */
  predicate TakesAway(e: Event, m: MemberId) {
    match e
    case Selects(byAuthor, _) => byAuthor
    case ReleaseReturns(onSelection) => onSelection
    case Reloads(listing) => m !in Listing(listing)
    case _ => false
  }

  /**
    In every interleaving a member is selected exactly when the author's last choice named it
    and since then no release of the selection has returned and no listing lacked it.
   */
  lemma {:induction false} SelectedExactly(trace: seq<Event>, size: nat, m: MemberId)
    requires size > 0
    ensures m in Replay(trace, size).selected <==> exists i :: 0 <= i < |trace| && Standing(trace, i, m)
  {
    if trace != [] {
      var n := |trace| - 1;
      var before, e := trace[..n], trace[n];
      SelectedExactly(before, size, m);
      assert forall i :: 0 <= i < n ==> (Standing(trace, i, m) <==> Standing(before, i, m) && !TakesAway(e, m));
      assert Standing(trace, n, m) <==> e.Selects? && e.byAuthor && m in e.values;
    }
  }

  /** A choice made while a release is under way is dropped with the release, though it was not acted on. */
  lemma LateChoiceIsDropped(first: set<MemberId>, late: set<MemberId>, listing: seq<MemberId>, size: nat)
    requires size > 0
    ensures
      var trace := [Selects(true, first), Selects(true, late), ReleaseReturns(true), Reloads(Some(listing))];
      Replay(trace, size).selected == {}
  {
    var trace := [Selects(true, first), Selects(true, late), ReleaseReturns(true), Reloads(Some(listing))];
    forall m
      ensures m !in Replay(trace, size).selected
    {
      SelectedExactly(trace, size, m);
      assert trace[2] == ReleaseReturns(true);
    }
  }

  lemma PagesExist(count: nat, size: nat)
    requires size > 0
    ensures TotalPages(count, size) >= 1
  {
    if count > 0 {
      assert count + size - 1 >= size;
    }
  }

  function FirstPages(suspects: seq<MemberId>, n: nat, size: nat): seq<MemberId> {
    if n == 0 then [] else FirstPages(suspects, n - 1, size) + PageOf(suspects, n - 1, size)
  }

  lemma {:induction false} FirstPagesArePrefix(suspects: seq<MemberId>, n: nat, size: nat)
    ensures FirstPages(suspects, n, size) == suspects[..Min(n * size, |suspects|)]
  {
    if n > 0 {
      FirstPagesArePrefix(suspects, n - 1, size);
      assert n * size == (n - 1) * size + size;
    }
  }

  /** The pages, one after the other, are the list; only the single page of an empty list is empty. */
  lemma PagesTileTheList(suspects: seq<MemberId>, size: nat)
    requires size > 0
    ensures FirstPages(suspects, TotalPages(|suspects|, size), size) == suspects
    ensures suspects != [] ==> forall p :: 0 <= p < TotalPages(|suspects|, size) ==> PageOf(suspects, p, size) != []
  {
    var n, total := |suspects|, TotalPages(|suspects|, size);
    FirstPagesArePrefix(suspects, total, size);
    if suspects != [] {
      CeilingBounds(n, size);
      forall p | 0 <= p < total
        ensures PageOf(suspects, p, size) != []
      {
        Monotone(p, total - 1, size);
      }
    }
  }

  lemma CeilingBounds(n: nat, size: nat)
    requires size > 0 && n > 0
    ensures TotalPages(n, size) * size >= n > (TotalPages(n, size) - 1) * size
  {
    var q, r := (n + size - 1) / size, (n + size - 1) % size;
    assert n + size - 1 == q * size + r;
    assert (q - 1) * size == q * size - size;
  }

  lemma Monotone(a: nat, b: nat, size: nat)
    requires a <= b
    ensures a * size <= b * size
  {
    assert b * size == a * size + (b - a) * size;
  }
}
