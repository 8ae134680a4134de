/** The journal page of one show: finding the show named by the route's
    slug, deciding whether it has a photo grid, the image paths, and the
    lightbox whose state is the index of the selected photo or nothing. */
module ShowJournal {
  import opened Wrappers
  import opened ShowData

  // ---------------------------------------------------------------------
  // Looking the show up
  // ---------------------------------------------------------------------

  /** The position of the first show whose slug is `slug`, or None when no
      show has it (the search that `find` performs). */
  function FindShow(shows: seq<Show>, slug: string): (r: Option<nat>)
    ensures r.Some? ==> r.value < |shows| && shows[r.value].slug == slug
    ensures r.Some? ==> forall j :: 0 <= j < r.value ==> shows[j].slug != slug
    ensures r.None? <==> forall j :: 0 <= j < |shows| ==> shows[j].slug != slug
  {
    if shows == [] then None
    else if shows[0].slug == slug then Some(0)
    else
      match FindShow(shows[1..], slug)
      case None => None
      case Some(k) => Some(k + 1)
  }

  // ---------------------------------------------------------------------
  // Journal and photos
  // ---------------------------------------------------------------------

  /** The photo file names of the show's journal; empty when there are none. */
  function Photos(show: Show): (r: seq<string>)
    ensures r != [] ==> show.journal.Some? && show.journal.value.photos == Some(r)
    ensures show.journal.Some? && show.journal.value.photos.Some? ==> r == show.journal.value.photos.value
  {
    if show.journal.Some? && show.journal.value.photos.Some? then show.journal.value.photos.value
    else []
  }

  /** The show has a journal, the journal has a photo list, and the list is
      not empty: exactly when there is at least one photo to show. */
  predicate HasJournal(show: Show)
    ensures HasJournal(show) <==> |Photos(show)| > 0
  {
    show.journal.Some? && show.journal.value.photos.Some? && |show.journal.value.photos.value| > 0
  }

  /** Where a photo of the show is served from: base URL, slug, `/`, file name. */
  function ImagePath(baseUrl: string, slug: string, photo: string): (r: string)
    ensures |r| == |baseUrl| + |slug| + 1 + |photo|
    ensures r[..|baseUrl|] == baseUrl
    ensures r[|r| - |photo|..] == photo
  {
    baseUrl + slug + "/" + photo
  }

  /** The path starts with the base URL and continues with `slug/photo`, and
      for a fixed base URL and slug it determines the photo. */
  lemma ImagePathParts(baseUrl: string, slug: string, photo: string, other: string)
    ensures ImagePath(baseUrl, slug, photo)[|baseUrl|..] == slug + "/" + photo
    ensures ImagePath(baseUrl, slug, photo) == ImagePath(baseUrl, slug, other) ==> photo == other
  {
    var p := ImagePath(baseUrl, slug, photo);
    var n := |baseUrl + slug + "/"|;
    assert p[n..] == photo;
    if p == ImagePath(baseUrl, slug, other) {
      assert p[n..] == other;
    }
  }

  /** The image paths of the photo grid, one per photo in order; distinct
      photos get distinct paths. */
  function GridPaths(baseUrl: string, slug: string, photos: seq<string>): (r: seq<string>)
    ensures |r| == |photos|
    ensures forall i :: 0 <= i < |r| ==> r[i] == ImagePath(baseUrl, slug, photos[i])
    ensures forall i, j :: 0 <= i < |r| && 0 <= j < |r| && photos[i] != photos[j] ==> r[i] != r[j]
  {
    var r := seq(|photos|, i requires 0 <= i < |photos| => ImagePath(baseUrl, slug, photos[i]));
    forall i, j | 0 <= i < |r| && 0 <= j < |r| && photos[i] != photos[j] ensures r[i] != r[j] {
      ImagePathParts(baseUrl, slug, photos[i], photos[j]);
    }
    r
  }

  // ---------------------------------------------------------------------
  // The page
  // ---------------------------------------------------------------------

  /** What the journal route renders: the not-found view, or the show with
      its photo grid (empty when the show has no journal). */
  datatype Page =
    | NotFound
    | JournalPage(show: Show, hasJournal: bool, grid: seq<string>)

  function RenderPage(shows: seq<Show>, slug: string, baseUrl: string): (p: Page)
    ensures p.NotFound? <==> forall j :: 0 <= j < |shows| ==> shows[j].slug != slug
    ensures p.JournalPage? ==> p.show.slug == slug && (p.grid != [] <==> p.hasJournal)
    ensures p.JournalPage? ==> p.hasJournal == HasJournal(p.show)
    ensures p.JournalPage? ==>
      exists i :: (0 <= i < |shows| && shows[i] == p.show &&
        forall j :: 0 <= j < i ==> shows[j].slug != slug)
  {
    match FindShow(shows, slug)
    case None => NotFound
    case Some(i) =>
      var show := shows[i];
      assert shows[i] == show && forall j :: 0 <= j < i ==> shows[j].slug != slug;
      var has := HasJournal(show);
      JournalPage(show, has, if has then GridPaths(baseUrl, slug, Photos(show)) else [])
  }

  /** The page shows "not found" exactly when no show has the slug; otherwise
      it shows the first show with that slug, with one grid image per photo
      when it has a journal and no grid when it does not. */
  lemma RenderPageSpec(shows: seq<Show>, slug: string, baseUrl: string)
    ensures var p := RenderPage(shows, slug, baseUrl);
      && (p.NotFound? <==> forall j :: 0 <= j < |shows| ==> shows[j].slug != slug)
      && (p.JournalPage? ==>
            && (exists i :: 0 <= i < |shows| && shows[i] == p.show &&
                  forall j :: 0 <= j < i ==> shows[j].slug != slug)
            && p.show.slug == slug
            && (p.hasJournal <==> |Photos(p.show)| > 0)
            && (p.grid == [] <==> !p.hasJournal)
            && |p.grid| == |Photos(p.show)|
            && forall k :: 0 <= k < |p.grid| ==>
                  p.grid[k] == ImagePath(baseUrl, slug, Photos(p.show)[k]))
  {
    var p := RenderPage(shows, slug, baseUrl);
    if p.JournalPage? {
      var i := FindShow(shows, slug).value;
      assert shows[i] == p.show;
    }
  }

  // ---------------------------------------------------------------------
  // Lightbox navigation
  // ---------------------------------------------------------------------

  /** The photo after `i`, wrapping from the last to the first. The source's
      `(i + 1) % n` has a non-negative operand, so Dafny's `%` agrees with it. */
  function NextIndex(i: nat, n: nat): (r: nat)
    requires i < n
    ensures r < n
    ensures r == if i == n - 1 then 0 else i + 1
  {
    (i + 1) % n
  }

  /** The photo before `i`, wrapping from the first to the last. The source's
      `(i - 1 + n) % n` has a non-negative operand for `i < n`, so Dafny's `%`
      agrees with it. */
  function PrevIndex(i: nat, n: nat): (r: nat)
    requires i < n
    ensures r < n
    ensures r == if i == 0 then n - 1 else i - 1
  {
    (i - 1 + n) % n
  }

  /** Next then previous, and previous then next, come back to the same photo. */
  lemma NextPrevInverse(i: nat, n: nat)
    requires i < n
    ensures PrevIndex(NextIndex(i, n), n) == i
    ensures NextIndex(PrevIndex(i, n), n) == i
  {
  }

  /** `k` presses of next. */
  function NextTimes(i: nat, n: nat, k: nat): (r: nat)
    requires i < n
    ensures r < n
  {
    if k == 0 then i else NextIndex(NextTimes(i, n, k - 1), n)
  }

  /** Pressing next `k` times, for up to one full round, moves `k` photos
      forward, wrapping past the last photo to the first. */
  lemma {:induction false} NextTimesIsShift(i: nat, n: nat, k: nat)
    requires i < n
    requires k <= n
    ensures NextTimes(i, n, k) == if i + k < n then i + k else i + k - n
  {
    if k > 0 {
      NextTimesIsShift(i, n, k - 1);
    }
  }

  /** `n` presses of next bring the lightbox back to the photo it started
      on, and fewer presses do not. */
  lemma NextCyclesThroughAll(i: nat, n: nat, k: nat)
    requires i < n
    ensures NextTimes(i, n, n) == i
    ensures 0 < k < n ==> NextTimes(i, n, k) != i
  {
    NextTimesIsShift(i, n, n);
    if 0 < k < n {
      NextTimesIsShift(i, n, k);
    }
  }

  /** With more than one distinct photo, next changes the image shown and
      previous restores it. */
  lemma NextShowsAnotherImage(baseUrl: string, slug: string, photos: seq<string>, i: nat)
    requires i < |photos|
    requires |photos| > 1
    requires forall a, b :: 0 <= a < b < |photos| ==> photos[a] != photos[b]
    ensures var n := |photos|;
      && ImagePath(baseUrl, slug, photos[NextIndex(i, n)]) != ImagePath(baseUrl, slug, photos[i])
      && ImagePath(baseUrl, slug, photos[PrevIndex(NextIndex(i, n), n)]) == ImagePath(baseUrl, slug, photos[i])
  {
    var j := NextIndex(i, |photos|);
    ImagePathParts(baseUrl, slug, photos[j], photos[i]);
  }

  // ---------------------------------------------------------------------
  // The lightbox state machine
  // ---------------------------------------------------------------------

  /** The clicks the journal page reacts to. */
  datatype Click =
    | PhotoClick(index: nat)   // a photo of the grid
    | NextClick                // the lightbox's next button
    | PrevClick                // the lightbox's previous button
    | CloseClick               // the lightbox's close button
    | OverlayClick             // the lightbox's backdrop
    | ImageClick               // the enlarged image, which stops the event

  /** The selection never points past the photo list. */
  predicate InRange(selected: Option<nat>, n: nat)
  {
    selected.Some? ==> selected.value < n
  }

  /** A click can happen only on something rendered: grid photo `i` exists when
      `i < n`, and the lightbox controls are taken to exist while the lightbox
      is shown, that is while a photo is selected and there are photos
      (`hasJournal`); clicks during the lightbox's exit animation are not
      modelled. Every possible click thus happens on a page with photos, and
      from an in-range selection the lightbox controls exist exactly when a
      photo is selected. */
  predicate Enabled(selected: Option<nat>, n: nat, c: Click)
    ensures Enabled(selected, n, c) ==> n > 0
    ensures InRange(selected, n) && !c.PhotoClick? ==> (Enabled(selected, n, c) <==> selected.Some?)
  {
    match c
    case PhotoClick(i) => i < n
    case _ => selected.Some? && n > 0
  }

  /** The selection after a click; a click on something not rendered changes nothing. */
  function Step(selected: Option<nat>, n: nat, c: Click): (r: Option<nat>)
    requires InRange(selected, n)
    ensures InRange(r, n)
  {
    if !Enabled(selected, n, c) then selected
    else
      match c
      case PhotoClick(i) => Some(i)
      case NextClick => Some(NextIndex(selected.value, n))
      case PrevClick => Some(PrevIndex(selected.value, n))
      case CloseClick => None
      case OverlayClick => None
      case ImageClick => selected
  }

  /** The selection after a sequence of clicks. */
  function Run(selected: Option<nat>, n: nat, clicks: seq<Click>): (r: Option<nat>)
    requires InRange(selected, n)
    ensures InRange(r, n)
    decreases |clicks|
  {
    if clicks == [] then selected else Run(Step(selected, n, clicks[0]), n, clicks[1..])
  }

  /** What each click does: a grid photo opens the lightbox on it, close and
      the backdrop close it, next and previous move around the cycle, and a
      click on the image itself does nothing. */
  lemma StepSpec(selected: Option<nat>, n: nat, c: Click)
    requires InRange(selected, n)
    requires Enabled(selected, n, c)
    ensures c.PhotoClick? ==> Step(selected, n, c) == Some(c.index)
    ensures c.CloseClick? || c.OverlayClick? ==> Step(selected, n, c) == None
    ensures c.ImageClick? ==> Step(selected, n, c) == selected
    ensures c.NextClick? ==>
      Step(selected, n, c).Some? && PrevIndex(Step(selected, n, c).value, n) == selected.value
    ensures c.PrevClick? ==>
      Step(selected, n, c).Some? && NextIndex(Step(selected, n, c).value, n) == selected.value
  {
  }

  /** After any clicks from an in-range selection, a selected photo indexes a
      non-empty photo list, so the lightbox can be shown only with a journal.
      This is a corollary of the in-range guarantee of `Run`. */
  lemma RunShownOnlyWithJournal(selected: Option<nat>, n: nat, clicks: seq<Click>)
    requires InRange(selected, n)
    ensures var r := Run(selected, n, clicks);
      r.Some? ==> n > 0 && r.value < n
  {
  }

  lemma RunTwo(selected: Option<nat>, n: nat, c: Click, d: Click)
    requires InRange(selected, n)
    ensures Run(selected, n, [c, d]) == Step(Step(selected, n, c), n, d)
  {
    var s1 := Step(selected, n, c);
    assert [c, d][0] == c && [c, d][1..] == [d];
    assert Run(selected, n, [c, d]) == Run(s1, n, [d]);
    assert [d][0] == d && [d][1..] == [];
    assert Run(s1, n, [d]) == Run(Step(s1, n, d), n, []);
  }

  /** Next followed by previous, in the open lightbox, restores the selection. */
  lemma NextThenPrev(selected: Option<nat>, n: nat)
    requires InRange(selected, n)
    requires selected.Some?
    ensures Run(selected, n, [NextClick, PrevClick]) == selected
    ensures Run(selected, n, [PrevClick, NextClick]) == selected
  {
    var i := selected.value;
    NextPrevInverse(i, n);
    var afterNext := Step(selected, n, NextClick);
    assert afterNext == Some(NextIndex(i, n));
    assert Step(afterNext, n, PrevClick) == selected;
    RunTwo(selected, n, NextClick, PrevClick);
    var afterPrev := Step(selected, n, PrevClick);
    assert afterPrev == Some(PrevIndex(i, n));
    assert Step(afterPrev, n, NextClick) == selected;
    RunTwo(selected, n, PrevClick, NextClick);
  }

  /** The journal page's lightbox state for one show (`selectedPhoto`). */
  class Lightbox {
    const show: Show
    const slug: string
    const baseUrl: string
    var selected: Option<nat>

    /** The number of photos the page shows for this show. */
    function PhotoCount(): nat
      reads this
    {
      |Photos(show)|
    }

    ghost predicate Valid()
      reads this
    {
      InRange(selected, PhotoCount())
    }

    /** The page starts with no photo selected. */
    constructor (show: Show, slug: string, baseUrl: string)
      ensures this.show == show && this.slug == slug && this.baseUrl == baseUrl
      ensures selected == None
      ensures Valid()
    {
      this.show := show;
      this.slug := slug;
      this.baseUrl := baseUrl;
      selected := None;
    }

    /** Whether the lightbox is rendered: a photo is selected and the show
        has a journal. It is rendered only with a non-empty photo list, and in
        a valid state exactly when a photo is selected. */
    function Shown(): (r: bool)
      reads this
      ensures r ==> selected.Some? && PhotoCount() > 0
      ensures Valid() ==> (r <==> selected.Some?)
    {
      selected.Some? && HasJournal(show)
    }

    /** The source of the enlarged image: the grid's image for the selected photo. */
    function ShownImage(): (src: string)
      reads this
      requires Valid() && Shown()
      ensures src == GridPaths(baseUrl, slug, Photos(show))[selected.value]
    {
      baseUrl + slug + "/" + Photos(show)[selected.value]
    }

    /** In a valid state the lightbox is shown exactly when a photo is selected.
        This restates, for readers, the second ensures of `Shown` together
        with `Valid`, in terms of `HasJournal` and the selected index. */
    lemma ShownIffSelected()
      requires Valid()
      ensures Shown() <==> selected.Some?
      ensures Shown() ==> HasJournal(show) && selected.value < PhotoCount()
    {
    }

    /** A click on grid photo `i`. */
    method Open(i: nat)
      requires Valid()
      requires i < PhotoCount()
      modifies this
      ensures Valid() && Shown()
      ensures selected == Some(i)
      ensures selected == Step(old(selected), PhotoCount(), PhotoClick(i))
    {
      selected := Some(i);
    }

    /** A click on the next button of the shown lightbox. */
    method Next()
      requires Valid() && Shown()
      modifies this
      ensures Valid() && Shown()
      ensures selected == Some(NextIndex(old(selected).value, PhotoCount()))
      ensures selected == Step(old(selected), PhotoCount(), NextClick)
    {
      selected := Some((selected.value + 1) % |Photos(show)|);
    }

    /** A click on the previous button of the shown lightbox. */
    method Prev()
      requires Valid() && Shown()
      modifies this
      ensures Valid() && Shown()
      ensures selected == Some(PrevIndex(old(selected).value, PhotoCount()))
      ensures selected == Step(old(selected), PhotoCount(), PrevClick)
    {
      selected := Some((selected.value - 1 + |Photos(show)|) % |Photos(show)|);
    }

    /** A click on the close button or on the backdrop of the shown lightbox. */
    method Close()
      requires Valid() && Shown()
      modifies this
      ensures Valid() && !Shown()
      ensures selected == None
      ensures selected == Step(old(selected), PhotoCount(), CloseClick)
      ensures selected == Step(old(selected), PhotoCount(), OverlayClick)
    {
      selected := None;
    }
  }
}
