/** The contribution store: the one mutable table of the service, modelled as a
    value threaded through submit, list, lookup and moderation. */
module Contributions {
  import opened Results
  import opened Seqs
  import opened Text
  import opened Sampling
  import opened Sentences

  datatype Contribution = Contribution(
    id: int,
    kreyolText: string,
    audioUrl: string,
    email: Option<string>,
    gender: Option<string>,
    region: Option<string>,
    isApproved: bool,
    rejectionReason: Option<string>,
    createdAt: string,
    updatedAt: string)

  /** `MOCK_CONTRIBUTIONS`, in insertion order. */
  type Store = seq<Contribution>

  /** The record at position `i` has id `i + 1`. */
  predicate WellNumbered(store: Store) {
    forall i :: 0 <= i < |store| ==> store[i].id == i + 1
  }

  // ---------------------------------------------------------------------------
  // Moderation states
  // ---------------------------------------------------------------------------

  predicate Pending(c: Contribution) {
    !c.isApproved && c.rejectionReason.None?
  }

  predicate Approved(c: Contribution) {
    c.isApproved && c.rejectionReason.None?
  }

  predicate Rejected(c: Contribution) {
    !c.isApproved && c.rejectionReason.Some? && c.rejectionReason.value != ""
  }

  /** A record in one of the three states of the moderation life cycle:
      a rejected record always carries a reason, an approved one never does. */
  predicate InLifecycle(c: Contribution) {
    Pending(c) || Approved(c) || Rejected(c)
  }

  // ---------------------------------------------------------------------------
  // Seed contributions
  // ---------------------------------------------------------------------------

  const SeedTimestamp: string := "2025-01-01T10:00:00Z"
  const Genders: seq<string> := ["male", "female", "other"]
  const Regions: seq<string> := ["Port-au-Prince", "Cap-Haïtien", "Les Cayes", "Gonaïves"]
  const SeedRejection: string := "Audio quality issue"

  /** The `k`-th draw of a stream; a stream that runs out reads as zeros. */
  function DrawAt(draws: seq<nat>, k: nat): nat {
    if k < |draws| then draws[k] else 0
  }

  /** The seed record for the `n`-th sentence (`n` from 1): its text and audio URL,
      plus four random choices (gender, region, approval, whether to keep a reason). */
  function SeedContribution(n: nat, s: Sentence, draws: seq<nat>): Contribution
    requires n >= 1 && s.audioUrl.Some?
  {
    var base := 4 * (n - 1);
    Contribution(
      n, s.kreyolText, s.audioUrl.value,
      Some("user" + ShowNat(n) + "@example.com"),
      Some(Choice(Genders, DrawAt(draws, base))),
      Some(Choice(Regions, DrawAt(draws, base + 1))),
      Choice([true, false], DrawAt(draws, base + 2)),
      if Choice([true, false], DrawAt(draws, base + 3)) then None else Some(SeedRejection),
      SeedTimestamp, SeedTimestamp)
  }

  /** The initial table: one record per seed sentence, numbered from 1. */
  function SeedContributions(sentences: seq<Sentence>, draws: seq<nat>): (store: Store)
    requires forall i :: 0 <= i < |sentences| ==> sentences[i].audioUrl.Some?
    ensures |store| == |sentences|
    ensures WellNumbered(store)
    ensures forall i :: 0 <= i < |store| ==>
      && store[i].kreyolText == sentences[i].kreyolText
      && Some(store[i].audioUrl) == sentences[i].audioUrl
      && store[i].email == Some("user" + ShowNat(i + 1) + "@example.com")
      && store[i].gender.Some? && store[i].gender.value in Genders
      && store[i].region.Some? && store[i].region.value in Regions
      && (store[i].rejectionReason.None? || store[i].rejectionReason == Some(SeedRejection))
      && store[i].createdAt == SeedTimestamp && store[i].updatedAt == SeedTimestamp
  {
    seq(|sentences|, i requires 0 <= i < |sentences| => SeedContribution(i + 1, sentences[i], draws))
  }

  /** The table at start-up, built from the seed sentences. */
  function InitialStore(draws: seq<nat>): (store: Store)
    ensures |store| == |SeedSentences|
    ensures WellNumbered(store)
  {
    SeedTableShape();
    SeedContributions(SeedSentences, draws)
  }

  // ---------------------------------------------------------------------------
  // Submission
  // ---------------------------------------------------------------------------

  const AllowedExtensions: seq<string> := [".mp3", ".wav", ".webm", ".m4a"]
  const AudioUrlPrefix: string := "https://example.blob.core.windows.net/audio/"

  /** The upload checks: a file name must be present, and its last dot-separated
      segment, lower-cased, must be a whitelisted extension. On success the
      lower-cased extension is returned. */
  function ValidateAudioFilename(filename: Option<string>): (r: Result<string>)
    ensures filename.None? || filename == Some("") ==> r == Failure(AudioFileRequired)
    ensures r.Failure? ==> r.error.Status() == 400
    ensures filename.Some? && filename.value != "" ==>
      var ext := Lower(LastSegment(filename.value, '.'));
      && (r.Success? <==> "." + ext in AllowedExtensions)
      && (r.Success? ==> r.value == ext)
      && (r.Failure? ==> r.error == InvalidFileType)
  {
    if filename.None? || filename.value == "" then Failure(AudioFileRequired)
    else
      var ext := Lower(LastSegment(filename.value, '.'));
      if "." + ext in AllowedExtensions then Success(ext) else Failure(InvalidFileType)
  }

  /** The four extensions, without their dot. */
  predicate IsAudioExtension(ext: string) {
    ext == "mp3" || ext == "wav" || ext == "webm" || ext == "m4a"
  }

  /** A non-empty name splits uniquely into a stem that is empty or ends in a dot,
      and a dot-free extension; the name is accepted exactly when that extension,
      lower-cased, is an audio extension. A dot-free name is its own extension. */
  lemma AudioFilenameAccepted(name: string, stem: string, ext: string)
    requires name != "" && name == stem + ext
    requires '.' !in ext
    requires stem == "" || stem[|stem| - 1] == '.'
    ensures ValidateAudioFilename(Some(name)).Success? <==> IsAudioExtension(Lower(ext))
    ensures ValidateAudioFilename(Some(name)).Success? ==> ValidateAudioFilename(Some(name)).value == Lower(ext)
  {
    assert name[|name| - |ext|..] == ext;
    if stem != "" {
      assert name[|name| - |ext| - 1] == stem[|stem| - 1];
    }
    LastSegmentUnique(name, '.', ext);
    DottedExtension(Lower(ext));
  }

  /** The dotted whitelist holds exactly the four extensions, each behind a dot. */
  lemma DottedExtension(e: string)
    ensures "." + e in AllowedExtensions <==> IsAudioExtension(e)
  {
    forall x | x in ["mp3", "wav", "webm", "m4a"]
      ensures "." + e == "." + x <==> e == x
    {
      if "." + e == "." + x {
        assert ("." + e)[1..] == e && ("." + x)[1..] == x;
      }
    }
    assert "." + "mp3" == ".mp3" && "." + "wav" == ".wav";
    assert "." + "webm" == ".webm" && "." + "m4a" == ".m4a";
  }

  /** `clip.ogg` is refused: `ogg` is not an audio extension. */
  lemma OggRefused()
    ensures ValidateAudioFilename(Some("clip.ogg")) == Failure(InvalidFileType)
  {
    AudioFilenameAccepted("clip.ogg", "clip.", "ogg");
  }

  /** `clip.MP3` is accepted: the comparison ignores case. */
  lemma UpperCaseAccepted()
    ensures ValidateAudioFilename(Some("clip.MP3")) == Success("mp3")
  {
    AudioFilenameAccepted("clip.MP3", "clip.", "MP3");
    LowerMp3();
  }

  /** The upper-case extension lower-cases to the whitelisted one. */
  lemma LowerMp3()
    ensures Lower("MP3") == "mp3"
  {
  }

  /** A name without a dot is its own extension, so a bare `mp3` or `WAV` is accepted,
      and any other dot-free name is refused as an invalid file type. */
  lemma DotlessAccepted(name: string)
    requires name != "" && '.' !in name
    ensures ValidateAudioFilename(Some(name)) ==
      if IsAudioExtension(Lower(name)) then Success(Lower(name)) else Failure(InvalidFileType)
  {
    AudioFilenameAccepted(name, "", name);
  }

  /** A name ending in a dot has an empty extension, which is refused. */
  lemma TrailingDotRefused()
    ensures ValidateAudioFilename(Some("song.mp3.")) == Failure(InvalidFileType)
  {
    AudioFilenameAccepted("song.mp3.", "song.mp3.", "");
  }

  /** A store together with the record an operation created or changed. */
  datatype Change = Change(store: Store, record: Contribution)

  /** `POST /api/contributions`. The uuid and the two clock readings are inputs. */
  function Submit(
    store: Store, kreyolText: string, filename: Option<string>,
    email: Option<string>, gender: Option<string>, region: Option<string>,
    uuid: string, createdAt: string, updatedAt: string): (r: Result<Change>)
    ensures r.Success? <==> ValidateAudioFilename(filename).Success?
    ensures r.Failure? ==> r.error == ValidateAudioFilename(filename).error
    ensures r.Success? ==>
      var c := r.value.record;
      && r.value.store == store + [c]
      && c.id == |store| + 1
      && Pending(c)
      && c.kreyolText == kreyolText && c.email == email && c.gender == gender && c.region == region
      && c.audioUrl == AudioUrlPrefix + uuid + "." + ValidateAudioFilename(filename).value
      && c.createdAt == createdAt && c.updatedAt == updatedAt
    ensures r.Success? && WellNumbered(store) ==> WellNumbered(r.value.store)
  {
    match ValidateAudioFilename(filename)
    case Failure(e) => Failure(e)
    case Success(ext) =>
      var c := Contribution(
        |store| + 1, kreyolText, AudioUrlPrefix + uuid + "." + ext,
        email, gender, region, false, None, createdAt, updatedAt);
      Success(Change(store + [c], c))
  }

  // ---------------------------------------------------------------------------
  // Lookup
  // ---------------------------------------------------------------------------

  /** The position of the first record with id `id`. */
  function FindIndex(store: Store, id: int): (r: Option<nat>)
    ensures r.Some? ==> r.value < |store| && store[r.value].id == id
    ensures r.Some? ==> forall j :: 0 <= j < r.value ==> store[j].id != id
    ensures r.None? <==> forall j :: 0 <= j < |store| ==> store[j].id != id
    decreases |store|
  {
    if |store| == 0 then None
    else if store[0].id == id then Some(0)
    else
      match FindIndex(store[1..], id)
      case None => None
      case Some(k) => Some(k + 1)
  }

  /** `GET /api/contributions/{id}`: the first record with that id. */
  function GetById(store: Store, id: int): (r: Result<Contribution>)
    requires id >= 1
    ensures r.Failure? <==> forall j :: 0 <= j < |store| ==> store[j].id != id
    ensures r.Failure? ==> r.error == NotFound && r.error.Status() == 404
    ensures r.Success? ==> r.value.id == id
    ensures r.Success? ==>
      exists i :: 0 <= i < |store| && store[i] == r.value && forall j :: 0 <= j < i ==> store[j].id != id
  {
    match FindIndex(store, id)
    case None => Failure(NotFound)
    case Some(i) => Success(store[i])
  }

  /** In a well-numbered store, id `n` is found exactly for `1 <= n <= |store|`, at position `n - 1`. */
  lemma GetByIdNumbered(store: Store, id: int)
    requires id >= 1
    requires WellNumbered(store)
    ensures id <= |store| ==> GetById(store, id) == Success(store[id - 1])
    ensures id > |store| ==> GetById(store, id) == Failure(NotFound)
  {
    if id <= |store| {
      assert store[id - 1].id == id;
      var i := FindIndex(store, id).value;
      assert store[i].id == i + 1;
    }
  }

  /** Two stores with the same ids position by position find every id at the same position. */
  lemma {:induction false} SameIdsSameIndex(a: Store, b: Store, id: int)
    requires |a| == |b|
    requires forall i :: 0 <= i < |a| ==> a[i].id == b[i].id
    ensures FindIndex(a, id) == FindIndex(b, id)
    decreases |a|
  {
    if |a| > 0 {
      SameIdsSameIndex(a[1..], b[1..], id);
    }
  }

  // ---------------------------------------------------------------------------
  // Moderation
  // ---------------------------------------------------------------------------

  /** `PATCH /api/contributions/{id}/approval`. An unknown id is reported before a
      missing reason; a success changes only the approval, the reason and the
      update time of the first record with that id. */
  function Moderate(store: Store, id: int, approved: bool, reason: Option<string>, now: string)
    : (r: Result<Change>)
    requires id >= 1
    ensures r.Failure? && r.error == NotFound <==> forall j :: 0 <= j < |store| ==> store[j].id != id
    ensures r.Failure? && r.error == RejectionReasonRequired <==>
      && (exists j :: 0 <= j < |store| && store[j].id == id)
      && !approved && (reason.None? || reason == Some(""))
    ensures r.Failure? ==> r.error == NotFound || r.error == RejectionReasonRequired
    ensures r.Failure? ==> (r.error.Status() == 404 <==> forall j :: 0 <= j < |store| ==> store[j].id != id)
    ensures r.Success? ==>
      var i := FindIndex(store, id).value;
      && |r.value.store| == |store|
      && r.value.record == r.value.store[i]
      && (forall j :: 0 <= j < |store| && j != i ==> r.value.store[j] == store[j])
      && r.value.record == store[i].(
           isApproved := approved,
           rejectionReason := if approved then None else reason,
           updatedAt := now)
      && r.value.record.id == id
      && InLifecycle(r.value.record)
    ensures r.Success? && WellNumbered(store) ==> WellNumbered(r.value.store)
  {
    match FindIndex(store, id)
    case None => Failure(NotFound)
    case Some(i) =>
      if !approved && (reason.None? || reason.value == "") then Failure(RejectionReasonRequired)
      else
        var c := store[i].(
          isApproved := approved,
          rejectionReason := if approved then None else reason,
          updatedAt := now);
        Success(Change(store[i := c], c))
  }

  /** After a moderation, looking up the moderated id returns the updated record
      and every other id still finds what it found before. */
  lemma ModerateThenGet(store: Store, id: int, approved: bool, reason: Option<string>, now: string, other: int)
    requires id >= 1 && other >= 1
    requires Moderate(store, id, approved, reason, now).Success?
    ensures
      var ch := Moderate(store, id, approved, reason, now).value;
      && GetById(ch.store, id) == Success(ch.record)
      && (other != id ==> GetById(ch.store, other) == GetById(store, other))
  {
    var ch := Moderate(store, id, approved, reason, now).value;
    SameIdsSameIndex(ch.store, store, id);
    SameIdsSameIndex(ch.store, store, other);
  }

  /** Rejecting without a reason fails, rejecting with one stores it, and a later
      approval clears it again. */
  lemma RejectThenApprove(store: Store, id: int, t1: string, t2: string)
    requires id >= 1
    requires exists j :: 0 <= j < |store| && store[j].id == id
    ensures Moderate(store, id, false, None, t1) == Failure(RejectionReasonRequired)
    ensures Moderate(store, id, false, Some("noisy"), t1).Success?
    ensures
      var rejected := Moderate(store, id, false, Some("noisy"), t1).value;
      && Rejected(rejected.record) && rejected.record.rejectionReason == Some("noisy")
      && Moderate(rejected.store, id, true, None, t2).Success?
      && Approved(Moderate(rejected.store, id, true, None, t2).value.record)
  {
    var rejected := Moderate(store, id, false, Some("noisy"), t1).value;
    SameIdsSameIndex(rejected.store, store, id);
  }

  // ---------------------------------------------------------------------------
  // Listing
  // ---------------------------------------------------------------------------

  datatype ContributionList = ContributionList(
    items: seq<Contribution>,
    page: int,
    pageSize: int,
    totalItems: int,
    totalPages: int)

  function IsApproved(): Contribution -> bool {
    (c: Contribution) => c.isApproved
  }

  /** The records a listing pages through: all of them, or only the approved ones. */
  function Listed(store: Store, includeUnapproved: bool): (r: seq<Contribution>)
    ensures |r| <= |store|
    ensures forall c :: multiset(r)[c] == if includeUnapproved || c.isApproved then multiset(store)[c] else 0
  {
    if includeUnapproved then store else Filter(store, IsApproved())
  }

  /** Asking for unapproved records too lists the whole table, in table order. */
  lemma FullListing(store: Store)
    ensures Listed(store, true) == store
  {
  }

  /** Listing a table made of two parts lists the first part, then the second:
      records keep their table order. */
  lemma ListedAppend(a: Store, b: Store, includeUnapproved: bool)
    ensures Listed(a + b, includeUnapproved) == Listed(a, includeUnapproved) + Listed(b, includeUnapproved)
  {
    if !includeUnapproved {
      FilterAppend(a, b, IsApproved());
    }
  }

  /** A one-record table lists its record exactly when it is approved or all records are asked for. */
  lemma ListedSingle(c: Contribution, includeUnapproved: bool)
    ensures Listed([c], includeUnapproved) == if includeUnapproved || c.isApproved then [c] else []
  {
    if !includeUnapproved {
      FilterCons([c], IsApproved());
      assert [c][1..] == [];
    }
  }

  /** When every record is approved, the public listing is the full listing. */
  lemma AllApprovedListedAlike(store: Store)
    requires forall i :: 0 <= i < |store| ==> store[i].isApproved
    ensures Listed(store, false) == Listed(store, true)
  {
    FilterKeepsAll(store, IsApproved());
  }

  /** The index of the first record on page `page` (pages are numbered from 1),
      when every earlier page holds `size` records. */
  function PageStart(page: int, size: nat): nat
    requires page >= 1
    decreases page
  {
    if page == 1 then 0 else PageStart(page - 1, size) + size
  }

  /** Page `page` starts at `(page - 1) * size`, the source's `start_idx`. */
  lemma {:induction false} PageStartProduct(page: int, size: nat)
    requires page >= 1
    ensures PageStart(page, size) == (page - 1) * size
    decreases page
  {
    if page > 1 {
      PageStartProduct(page - 1, size);
    }
  }

  /** Every listed record is in the store, and the public listing holds only approved ones. */
  lemma ListedFromStore(store: Store, includeUnapproved: bool)
    ensures forall c :: c in Listed(store, includeUnapproved) ==>
      c in store && (includeUnapproved || c.isApproved)
  {
  }

  /** `(n + d - 1) // d` is the ceiling of `n / d`. */
  lemma CeilingDivision(n: nat, d: int)
    requires d >= 1
    ensures ((n + d - 1) / d - 1) * d < n <= ((n + d - 1) / d) * d
  {
    var q := (n + d - 1) / d;
    var m := (n + d - 1) % d;
    assert q * d + m == n + d - 1;
    assert (q - 1) * d == q * d - d;
  }

  /** With `(n + d - 1) // d` pages the last page starts before the end of `n` records,
      and the page after it would start at or past the end. */
  lemma PageCount(n: nat, d: int)
    requires d >= 1
    ensures (n + d - 1) / d >= 0
    ensures n <= PageStart((n + d - 1) / d + 1, d)
    ensures (n + d - 1) / d >= 1 ==> PageStart((n + d - 1) / d, d) < n
  {
    var pages := (n + d - 1) / d;
    CeilingDivision(n, d);
    PageStartProduct(pages + 1, d);
    if pages >= 1 {
      PageStartProduct(pages, d);
    }
  }

  /** A page starts past the last item exactly when its number exceeds the page count. */
  lemma PageBeyondEnd(n: nat, d: int, page: int)
    requires d >= 1 && page >= 1
    ensures page > (n + d - 1) / d <==> PageStart(page, d) >= n
  {
    var pages := (n + d - 1) / d;
    CeilingDivision(n, d);
    PageStartProduct(page, d);
    if page > pages {
      assert page - 1 >= pages;
      assert (page - 1) * d >= pages * d;
    } else {
      assert page - 1 <= pages - 1;
      assert (page - 1) * d <= (pages - 1) * d;
    }
  }

  /** `r` is page `page` of `listed`, `pageSize` records to a page: it counts
      every item, has just enough pages to hold them (the last one starts before
      the end, the one after it would not), and holds the items from the page's
      start index on, at most `pageSize` of them, so it is empty exactly when the
      page number is past the last page. */
  predicate IsPageOf(r: ContributionList, listed: seq<Contribution>, page: int, pageSize: int)
    requires page >= 1 && pageSize >= 1
  {
    && r.page == page && r.pageSize == pageSize && r.totalItems == |listed|
    && r.totalPages >= 0 && r.totalItems <= PageStart(r.totalPages + 1, pageSize)
    && (r.totalPages >= 1 ==> PageStart(r.totalPages, pageSize) < r.totalItems)
    && |r.items| <= pageSize
    && |r.items| == Max(0, Min(pageSize, r.totalItems - PageStart(page, pageSize)))
    && (forall k :: 0 <= k < |r.items| ==>
          PageStart(page, pageSize) + k < |listed| && r.items[k] == listed[PageStart(page, pageSize) + k])
    && (|r.items| == 0 <==> page > r.totalPages)
  }

  /** The pagination arithmetic over an already filtered sequence. */
  function Paginate(listed: seq<Contribution>, page: int, pageSize: int): (r: ContributionList)
    requires page >= 1
    requires 1 <= pageSize <= 100
    ensures IsPageOf(r, listed, page, pageSize)
  {
    var total := |listed|;
    var pages := (total + pageSize - 1) / pageSize;
    PageCount(total, pageSize);
    PageBeyondEnd(total, pageSize, page);
    var start := PageStart(page, pageSize);
    var items := Slice(listed, start, start + pageSize);
    ContributionList(items, page, pageSize, total, pages)
  }

  /** A page only shows records of the sequence it pages through. */
  lemma PageItemsListed(listed: seq<Contribution>, page: int, pageSize: int)
    requires page >= 1 && 1 <= pageSize <= 100
    ensures forall c :: c in Paginate(listed, page, pageSize).items ==> c in listed
  {
    var r := Paginate(listed, page, pageSize);
    forall c | c in r.items
      ensures c in listed
    {
      var k :| 0 <= k < |r.items| && r.items[k] == c;
      assert c == listed[PageStart(page, pageSize) + k];
    }
  }

  /** `GET /api/contributions`: one page of the listed records, with the page count. */
  function ListContributions(store: Store, page: int, pageSize: int, includeUnapproved: bool)
    : (r: ContributionList)
    requires page >= 1
    requires 1 <= pageSize <= 100
    ensures IsPageOf(r, Listed(store, includeUnapproved), page, pageSize)
    ensures includeUnapproved ==> r.totalItems == |store|
    ensures !includeUnapproved ==> forall c :: c in r.items ==> c in store && c.isApproved
  {
    var listed := Listed(store, includeUnapproved);
    PublicPageApproved(store, page, pageSize);
    Paginate(listed, page, pageSize)
  }

  /** A page of the public listing shows only approved records of the table. */
  lemma PublicPageApproved(store: Store, page: int, pageSize: int)
    requires page >= 1 && 1 <= pageSize <= 100
    ensures forall c :: c in Paginate(Listed(store, false), page, pageSize).items ==> c in store && c.isApproved
  {
    PageItemsListed(Listed(store, false), page, pageSize);
    ListedFromStore(store, false);
  }

  /** Item `i` sits at offset `i % d` of the page starting at `(i / d) * d`. */
  lemma PagePosition(i: nat, d: int, n: nat)
    requires d >= 1 && i < n
    ensures PageStart(i / d + 1, d) + i % d == i
    ensures i % d < Max(0, Min(d, n - PageStart(i / d + 1, d)))
  {
    PageStartProduct(i / d + 1, d);
  }

  /** Item `i` of a list sits on page `i / pageSize + 1`, at position `i % pageSize`. */
  lemma PaginateItem(listed: seq<Contribution>, pageSize: int, i: nat)
    requires 1 <= pageSize <= 100
    requires i < |listed|
    ensures
      var r := Paginate(listed, i / pageSize + 1, pageSize);
      i % pageSize < |r.items| && r.items[i % pageSize] == listed[i]
  {
    PagePosition(i, pageSize, |listed|);
  }

  /** The listing endpoint pages through exactly the records `Listed` selects. */
  lemma ListingPaginates(store: Store, page: int, pageSize: int, includeUnapproved: bool)
    requires page >= 1 && 1 <= pageSize <= 100
    ensures ListContributions(store, page, pageSize, includeUnapproved)
      == Paginate(Listed(store, includeUnapproved), page, pageSize)
  {
  }

  /** Every listed record shows up on page `i / pageSize + 1`, at position `i % pageSize`. */
  lemma PageOfItem(store: Store, pageSize: int, includeUnapproved: bool, i: nat)
    requires 1 <= pageSize <= 100
    requires i < |Listed(store, includeUnapproved)|
    ensures
      var r := ListContributions(store, i / pageSize + 1, pageSize, includeUnapproved);
      i % pageSize < |r.items| && r.items[i % pageSize] == Listed(store, includeUnapproved)[i]
  {
    ListingPaginates(store, i / pageSize + 1, pageSize, includeUnapproved);
    PaginateItem(Listed(store, includeUnapproved), pageSize, i);
  }

  /** A submission is pending, so the public listing is exactly what it was, while
      the full listing gains one record at its end. */
  lemma SubmitKeepsPublicListing(
    store: Store, kreyolText: string, filename: Option<string>,
    email: Option<string>, gender: Option<string>, region: Option<string>,
    uuid: string, createdAt: string, updatedAt: string, page: int, pageSize: int)
    requires page >= 1 && 1 <= pageSize <= 100
    requires Submit(store, kreyolText, filename, email, gender, region, uuid, createdAt, updatedAt).Success?
    ensures
      var s := Submit(store, kreyolText, filename, email, gender, region, uuid, createdAt, updatedAt).value.store;
      && ListContributions(s, page, pageSize, false) == ListContributions(store, page, pageSize, false)
      && ListContributions(s, page, pageSize, true).totalItems == |store| + 1
  {
    var ch := Submit(store, kreyolText, filename, email, gender, region, uuid, createdAt, updatedAt).value;
    FilterAppend(store, [ch.record], IsApproved());
    assert Filter([ch.record], IsApproved()) == [];
    assert Listed(ch.store, false) == Listed(store, false);
  }

  /** After a submission the new record is found under its id, and every earlier id
      still finds what it found before. */
  lemma SubmitThenGet(
    store: Store, kreyolText: string, filename: Option<string>,
    email: Option<string>, gender: Option<string>, region: Option<string>,
    uuid: string, createdAt: string, updatedAt: string, id: int)
    requires WellNumbered(store)
    requires 1 <= id <= |store|
    requires Submit(store, kreyolText, filename, email, gender, region, uuid, createdAt, updatedAt).Success?
    ensures
      var ch := Submit(store, kreyolText, filename, email, gender, region, uuid, createdAt, updatedAt).value;
      && GetById(ch.store, |store| + 1) == Success(ch.record)
      && GetById(ch.store, id) == GetById(store, id)
  {
    var ch := Submit(store, kreyolText, filename, email, gender, region, uuid, createdAt, updatedAt).value;
    GetByIdNumbered(ch.store, |store| + 1);
    GetByIdNumbered(ch.store, id);
    GetByIdNumbered(store, id);
  }

  // ---------------------------------------------------------------------------
  // Sequences of requests
  // ---------------------------------------------------------------------------

  /** The two requests that change the table. */
  datatype Request =
    | SubmitRequest(
        kreyolText: string, filename: Option<string>,
        email: Option<string>, gender: Option<string>, region: Option<string>,
        uuid: string, createdAt: string, updatedAt: string)
    | ModerateRequest(id: int, approved: bool, reason: Option<string>, now: string)

  /** The table after one request; a request that fails leaves it unchanged, and
      so does a moderation whose path id is below 1, which routing refuses. */
  function Apply(store: Store, req: Request): (r: Store)
    ensures req.SubmitRequest? ==> r == store || (|r| == |store| + 1 && r[..|store|] == store)
    ensures req.ModerateRequest? ==> |r| == |store|
    ensures req.ModerateRequest? ==>
      forall j :: 0 <= j < |store| && store[j].id != req.id ==> r[j] == store[j]
    ensures forall j :: 0 <= j < |store| ==> r[j].id == store[j].id
  {
    match req
    case SubmitRequest(text, filename, email, gender, region, uuid, createdAt, updatedAt) =>
      (match Submit(store, text, filename, email, gender, region, uuid, createdAt, updatedAt)
       case Success(ch) => ch.store
       case Failure(_) => store)
    case ModerateRequest(id, approved, reason, now) =>
      if id < 1 then store
      else
        match Moderate(store, id, approved, reason, now)
        case Success(ch) => ch.store
        case Failure(_) => store
  }

  /** The table after a sequence of requests, processed one at a time. */
  function Run(store: Store, reqs: seq<Request>): (r: Store)
    ensures |store| <= |r| <= |store| + |reqs|
    ensures forall j :: 0 <= j < |store| ==> r[j].id == store[j].id
    decreases |reqs|
  {
    if |reqs| == 0 then store else Run(Apply(store, reqs[0]), reqs[1..])
  }

  /** Records from position `from` on are all in the moderation life cycle. */
  predicate SettledFrom(store: Store, from: nat) {
    forall j :: from <= j < |store| ==> InLifecycle(store[j])
  }

  /** One request keeps the numbering, never shrinks the table, and keeps every
      record from `from` on in the life cycle. */
  lemma ApplyInvariant(store: Store, req: Request, from: nat)
    requires WellNumbered(store)
    requires SettledFrom(store, from)
    ensures WellNumbered(Apply(store, req))
    ensures |Apply(store, req)| >= |store|
    ensures SettledFrom(Apply(store, req), from)
  {
  }

  /** Under any sequence of requests ids stay equal to position + 1 (so they are
      unique), the table only grows, and the records past `from` stay in the life cycle. */
  lemma {:induction false} RunInvariant(store: Store, reqs: seq<Request>, from: nat)
    requires WellNumbered(store)
    requires SettledFrom(store, from)
    ensures WellNumbered(Run(store, reqs))
    ensures |Run(store, reqs)| >= |store|
    ensures SettledFrom(Run(store, reqs), from)
    decreases |reqs|
  {
    if |reqs| > 0 {
      ApplyInvariant(store, reqs[0], from);
      RunInvariant(Apply(store, reqs[0]), reqs[1..], from);
    }
  }

  /** From the seed table, every reachable table is numbered 1, 2, 3, ... and every
      submitted record is pending, approved with no reason, or rejected with one. */
  lemma ServiceInvariant(seedDraws: seq<nat>, reqs: seq<Request>)
    ensures
      var store := Run(InitialStore(seedDraws), reqs);
      && WellNumbered(store)
      && |store| >= |SeedSentences|
      && SettledFrom(store, |SeedSentences|)
  {
    RunInvariant(InitialStore(seedDraws), reqs, |SeedSentences|);
  }
}
