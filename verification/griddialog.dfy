/** The photo-grid dialog: a column of thumbnails, exactly one of them
    selected, whose photo is the one the paper drops on a click; photos
    can be added; accepting the dialog renders the final grid. */
module GridDialog {
  import opened Geometry
  import opened PhotoGrid

  /** A thumbnail of a loaded photo, and whether it carries the selection
      frame. */
  datatype Thumbnail = Thumbnail(photo: Photo, selected: bool)

  datatype Dialog = Dialog(paper: GridPaper, thumbnails: seq<Thumbnail>)

  /** What the open-file dialog of `addPhoto` produced. */
  datatype OpenOutcome = Cancelled | NullImage | Loaded(photo: Photo)

  /** A user action in the dialog. */
  datatype Event = ThumbnailClick(k: int) | AddPhotoClick(outcome: OpenOutcome) | PaperClick(p: Point)

  /** Thumbnail `k` is selected and no other is. */
  predicate OnlySelected(ts: seq<Thumbnail>, k: int) {
    && 0 <= k < |ts|
    && forall j :: 0 <= j < |ts| ==> (ts[j].selected <==> j == k)
  }

  /** The selection rule of the dialog: one thumbnail is selected, its photo
      is the one the paper drops, and the paper is laid out as set up. */
  predicate Consistent(d: Dialog) {
    && Valid(d.paper)
    && exists k :: 0 <= k < |d.thumbnails| && OnlySelected(d.thumbnails, k) && d.paper.current == d.thumbnails[k].photo
  }

  /** The dialog as it opens on `photo`: a fresh paper dropping that photo
      and a single, selected thumbnail of it. */
  function OpenDialog(photo: Photo): (d: Dialog)
    ensures |d.thumbnails| == 1 && d.thumbnails[0].photo == photo
    ensures OnlySelected(d.thumbnails, 0)
    ensures Valid(d.paper) && d.paper.current == photo && d.paper.assignments == map[]
    ensures Consistent(d)
  {
    Dialog(NewGridPaper(photo), [Thumbnail(photo, true)])
  }

  /** `selectThumbnail`: every thumbnail loses the frame, then the clicked
      one gets it. No photo changes. */
  function SelectOnly(ts: seq<Thumbnail>, k: int): (r: seq<Thumbnail>)
    requires 0 <= k < |ts|
    ensures |r| == |ts| && OnlySelected(r, k)
    ensures forall j :: 0 <= j < |ts| ==> r[j].photo == ts[j].photo
  {
    seq(|ts|, j requires 0 <= j < |ts| => ts[j].(selected := j == k))
  }

  /** A click on thumbnail `k`: its `clicked` signal reaches both the paper's
      `setPhoto` and the group's `selectThumbnail`. */
  function ClickThumbnail(d: Dialog, k: int): (r: Dialog)
    requires 0 <= k < |d.thumbnails|
    ensures OnlySelected(r.thumbnails, k)
    ensures r.paper.current == d.thumbnails[k].photo
    ensures r.paper.(current := d.paper.current) == d.paper
    ensures |r.thumbnails| == |d.thumbnails|
    ensures forall j :: 0 <= j < |d.thumbnails| ==> r.thumbnails[j].photo == d.thumbnails[j].photo
  {
    Dialog(SetPhoto(d.paper, d.thumbnails[k].photo), SelectOnly(d.thumbnails, k))
  }

  /** `addPhoto`: a loaded image becomes a new, unselected thumbnail at the
      end; a cancelled dialog or an image that fails to load changes
      nothing. The paper is never touched. */
  function AddPhoto(d: Dialog, outcome: OpenOutcome): (r: Dialog)
    ensures r.paper == d.paper
    ensures outcome.Loaded? ==>
      && |r.thumbnails| == |d.thumbnails| + 1
      && r.thumbnails[..|d.thumbnails|] == d.thumbnails
      && r.thumbnails[|d.thumbnails|] == Thumbnail(outcome.photo, false)
    ensures !outcome.Loaded? ==> r == d
  {
    match outcome
    case Loaded(photo) => d.(thumbnails := d.thumbnails + [Thumbnail(photo, false)])
    case _ => d
  }

  /** A click on the paper inside the dialog. */
  function ClickPaperIn(d: Dialog, p: Point): (r: Dialog)
    ensures r.thumbnails == d.thumbnails
    ensures r.paper.current == d.paper.current
    ensures r.paper == ClickPaper(d.paper, p)
  {
    d.(paper := ClickPaper(d.paper, p))
  }

  /** `accept`: the final grid of the paper as it stands. */
  function Accept(d: Dialog): (r: map<int, Placement>)
    requires Valid(d.paper)
    ensures r.Keys == d.paper.assignments.Keys
    ensures forall k :: k in r ==> r[k].photo == d.paper.assignments[k]
  {
    CreateFinalGrid(d.paper)
  }

  /** At most one thumbnail is ever the selected one. */
  lemma SelectionUnique(ts: seq<Thumbnail>, k: int, k': int)
    requires OnlySelected(ts, k) && OnlySelected(ts, k')
    ensures k == k'
  {
    assert ts[k'].selected;
  }

  /** In a consistent dialog the selected thumbnail's photo is the one the
      paper drops. */
  lemma SelectedIsCurrent(d: Dialog, k: int)
    requires Consistent(d) && OnlySelected(d.thumbnails, k)
    ensures d.paper.current == d.thumbnails[k].photo
  {
    var k' :| OnlySelected(d.thumbnails, k') && d.paper.current == d.thumbnails[k'].photo;
    SelectionUnique(d.thumbnails, k, k');
  }

  lemma ClickThumbnailKeepsConsistent(d: Dialog, k: int)
    requires Consistent(d) && 0 <= k < |d.thumbnails|
    ensures Consistent(ClickThumbnail(d, k))
  {
    var r := ClickThumbnail(d, k);
    assert OnlySelected(r.thumbnails, k) && r.paper.current == r.thumbnails[k].photo;
  }

  /** Adding a photo keeps the selection and the current photo. */
  lemma AddPhotoKeepsSelection(d: Dialog, outcome: OpenOutcome, k: int)
    requires OnlySelected(d.thumbnails, k)
    ensures OnlySelected(AddPhoto(d, outcome).thumbnails, k)
    ensures AddPhoto(d, outcome).thumbnails[k] == d.thumbnails[k]
    ensures AddPhoto(d, outcome).paper.current == d.paper.current
  {
    var r := AddPhoto(d, outcome).thumbnails;
    if outcome.Loaded? {
      forall j | 0 <= j < |r|
        ensures r[j].selected <==> j == k
      {
        if j < |d.thumbnails| {
          assert r[j] == r[..|d.thumbnails|][j];
        }
      }
      assert r[k] == r[..|d.thumbnails|][k];
    }
  }

  lemma AddPhotoKeepsConsistent(d: Dialog, outcome: OpenOutcome)
    requires Consistent(d)
    ensures Consistent(AddPhoto(d, outcome))
  {
    var k :| OnlySelected(d.thumbnails, k) && d.paper.current == d.thumbnails[k].photo;
    AddPhotoKeepsSelection(d, outcome, k);
  }

  lemma ClickPaperKeepsConsistent(d: Dialog, p: Point)
    requires Consistent(d)
    ensures Consistent(ClickPaperIn(d, p))
  {
    ClickKeepsValid(d.paper, p);
  }

  /** A click inside box `b` of a consistent dialog drops the photo of the
      selected thumbnail into cell `b` and touches no other cell. */
  lemma ClickDropsSelectedPhoto(d: Dialog, k: int, b: int, p: Point)
    requires Consistent(d) && OnlySelected(d.thumbnails, k)
    requires 0 <= b < |d.paper.boxes| && Contains(d.paper.boxes[b], p)
    ensures ClickPaperIn(d, p).paper.assignments == d.paper.assignments[b := d.thumbnails[k].photo]
  {
    SelectedIsCurrent(d, k);
    ClickOnBoxAssignsIt(d.paper, b, p);
  }

  /** The dialog after a sequence of user actions. A click can only land on
      a thumbnail that exists, so other thumbnail indices are ignored. */
  function Run(d: Dialog, events: seq<Event>): (r: Dialog)
    ensures r.paper.config == d.paper.config && r.paper.boxes == d.paper.boxes
    ensures |d.thumbnails| <= |r.thumbnails|
    ensures forall j :: 0 <= j < |d.thumbnails| ==> r.thumbnails[j].photo == d.thumbnails[j].photo
    ensures d.paper.assignments.Keys <= r.paper.assignments.Keys
    decreases |events|
  {
    if |events| == 0 then d
    else
      var next := match events[0]
        case ThumbnailClick(k) => if 0 <= k < |d.thumbnails| then ClickThumbnail(d, k) else d
        case AddPhotoClick(outcome) => AddPhoto(d, outcome)
        case PaperClick(p) => ClickPaperIn(d, p);
      Run(next, events[1..])
  }

  /** Whatever the user does after opening the dialog, exactly one thumbnail
      is selected and its photo is the one the paper drops. */
  lemma {:induction false} RunKeepsConsistent(d: Dialog, events: seq<Event>)
    requires Consistent(d)
    ensures Consistent(Run(d, events))
    decreases |events|
  {
    if |events| > 0 {
      match events[0]
      case ThumbnailClick(k) =>
        if 0 <= k < |d.thumbnails| {
          ClickThumbnailKeepsConsistent(d, k);
          RunKeepsConsistent(ClickThumbnail(d, k), events[1..]);
        } else {
          RunKeepsConsistent(d, events[1..]);
        }
      case AddPhotoClick(outcome) =>
        AddPhotoKeepsConsistent(d, outcome);
        RunKeepsConsistent(AddPhoto(d, outcome), events[1..]);
      case PaperClick(p) =>
        ClickPaperKeepsConsistent(d, p);
        RunKeepsConsistent(ClickPaperIn(d, p), events[1..]);
    }
  }

  /** Every dialog reachable from opening it on a photo is consistent. */
  lemma ReachableConsistent(photo: Photo, events: seq<Event>)
    ensures Consistent(Run(OpenDialog(photo), events))
  {
    RunKeepsConsistent(OpenDialog(photo), events);
  }
}
