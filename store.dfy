/**
 * The application store (store/index.ts): one object holding the UI state
 * of the three views, the current session and the sidebar, whose actions
 * update it in place and write sessions and images through the record store.
 *
 * Promise chains run to completion inside each action, in the order the
 * source chains them. The clock (`Date.now()`), the id generator, the
 * thumbnail renderer and the `FileReader` are parameters.
 */
module Store {
  import opened Wrappers
  import opened Types
  import opened Strings
  import Codec
  import Db

  /** `createEmptyTabState`: no images, nothing selected, not generating. */
  function EmptyTabState(): TabState {
    TabState([], None, false)
  }

  /** A session id counts only when it is a non-empty string (JavaScript truthiness). */
  predicate IsSet(id: Option<string>) {
    id.Some? && id.value != ""
  }

  /** Every field of the store, as one value. */
  datatype AppState = AppState(
    apiKey: Option<string>,
    activeTab: TabId,
    frontal: TabState,
    back: TabState,
    base: TabState,
    currentSessionId: Option<string>,
    sessions: seq<SessionMeta>,
    sidebarOpen: bool,
    geminiModel: GeminiModel)
  {
    function Tab(t: TabId): TabState {
      match t
      case Frontal => frontal
      case Back => back
      case Base => base
    }

    /** The state with view `t` replaced by `s` (the computed-key `set({[tab]: …})`). */
    function WithTab(t: TabId, s: TabState): (r: AppState)
      ensures r.Tab(t) == s
      ensures forall u :: u != t ==> r.Tab(u) == Tab(u)
      ensures r.(frontal := frontal, back := back, base := base) == this
    {
      match t
      case Frontal => this.(frontal := s)
      case Back => this.(back := s)
      case Base => this.(base := s)
    }

    /**
     * `canNavigateToTab`: the frontal view always; the back view once the
     * frontal view has an image; the base view once both have.
     */
    predicate CanNavigateToTab(t: TabId) {
      match t
      case Frontal => true
      case Back => |frontal.images| > 0
      case Base => |frontal.images| > 0 && |back.images| > 0
    }
  }

  /** The views unlock in order: whatever can reach a view can reach every earlier one. */
  lemma NavigationIsOrdered(s: AppState)
    ensures s.CanNavigateToTab(Frontal)
    ensures s.CanNavigateToTab(Base) ==> s.CanNavigateToTab(Back)
    ensures s.CanNavigateToTab(Back) <==> |s.frontal.images| > 0
    ensures s.CanNavigateToTab(Base) <==> s.CanNavigateToTab(Back) && |s.back.images| > 0
  {
  }

  /** Adding images to any view never locks a view that was open. */
  lemma NavigationGrows(s: AppState, s': AppState, t: TabId)
    requires |s.frontal.images| <= |s'.frontal.images| && |s.back.images| <= |s'.back.images|
    requires s.CanNavigateToTab(t)
    ensures s'.CanNavigateToTab(t)
  {
  }

  /** `sessionRecordToMeta`: the record less its selections and model. */
  function SessionRecordToMeta(r: SessionRecord): SessionMeta {
    SessionMeta(r.id, r.name, r.createdAt, r.updatedAt, r.frontalThumbDataUrl)
  }

  /** `allSessions.map(sessionRecordToMeta)`: the sidebar list keeps the listing's order. */
  function SessionList(records: seq<SessionRecord>): (metas: seq<SessionMeta>)
    ensures |metas| == |records|
    ensures forall i :: 0 <= i < |records| ==>
      metas[i].id == records[i].id && metas[i].name == records[i].name &&
      metas[i].createdAt == records[i].createdAt && metas[i].updatedAt == records[i].updatedAt &&
      metas[i].frontalThumbDataUrl == records[i].frontalThumbDataUrl
    ensures Db.ByRecency(records) ==>
      forall i, j :: 0 <= i < j < |metas| ==> metas[i].updatedAt >= metas[j].updatedAt
  {
    seq(|records|, i requires 0 <= i < |records| => SessionRecordToMeta(records[i]))
  }

  /** `images.find((img) => img.id === id)`: the first image with that id. */
  function FindImage(images: seq<GeneratedImage>, id: string): (r: Option<nat>)
    ensures r.None? <==> forall i :: 0 <= i < |images| ==> images[i].id != id
    ensures r.Some? ==> r.value < |images| && images[r.value].id == id
    ensures r.Some? ==> forall i :: 0 <= i < r.value ==> images[i].id != id
  {
    if images == [] then None
    else if images[0].id == id then Some(0)
    else
      match FindImage(images[1..], id)
      case None => None
      case Some(i) => Some(i + 1)
  }

  /**
   * The image the session's thumbnail and default name come from: the
   * selected frontal image, or the first frontal image when none with the
   * selected id exists; nothing when the frontal view is empty.
   */
  function ThumbnailSource(frontal: TabState): (r: Option<GeneratedImage>)
    ensures r.None? <==> frontal.images == []
    ensures r.Some? ==> r.value in frontal.images
    ensures r.Some? && frontal.selectedImageId.Some? &&
            (exists i :: 0 <= i < |frontal.images| && frontal.images[i].id == frontal.selectedImageId.value) ==>
            r.value.id == frontal.selectedImageId.value
    ensures frontal.selectedImageId.Some? && FindImage(frontal.images, frontal.selectedImageId.value).Some? ==>
            r == Some(frontal.images[FindImage(frontal.images, frontal.selectedImageId.value).value])
    ensures r.Some? && (frontal.selectedImageId.None? ||
            forall i :: 0 <= i < |frontal.images| ==> frontal.images[i].id != frontal.selectedImageId.value) ==>
            r.value == frontal.images[0]
  {
    if |frontal.images| == 0 then None
    else if frontal.selectedImageId.None? then Some(frontal.images[0])
    else
      match FindImage(frontal.images, frontal.selectedImageId.value)
      case Some(i) => Some(frontal.images[i])
      case None => Some(frontal.images[0])
  }

  /**
   * The name a new session record gets: the first 40 characters of the
   * source image's prompt, with "..." when the prompt is longer; "Untitled"
   * without a source image.
   */
  function DefaultName(source: Option<GeneratedImage>): (name: string)
    ensures source.None? ==> name == "Untitled"
    ensures source.Some? && |source.value.prompt| <= 40 ==> name == source.value.prompt
    ensures source.Some? && |source.value.prompt| > 40 ==>
      |name| == 43 && name[..40] == source.value.prompt[..40] && name[40..] == "..."
  {
    match source
    case None => "Untitled"
    case Some(img) => Prefix(img.prompt, 40) + (if |img.prompt| > 40 then "..." else "")
  }

  /** The thumbnail stored with the session: `null` when there is no source image or rendering fails. */
  function ThumbnailFor(frontal: TabState, makeThumb: string -> Option<string>): Option<string> {
    match ThumbnailSource(frontal)
    case None => None
    case Some(img) => makeThumb(img.dataUrl)
  }

  /**
   * The record `persistSessionToDB` writes for session `id`: a name and
   * creation time the user or an earlier save set are kept, the update time
   * is now, and the selections and model are those of the state.
   */
  function SessionToSave(s: AppState, id: string, existing: Option<SessionRecord>,
                         makeThumb: string -> Option<string>, now: int): (r: SessionRecord)
    ensures r.id == id && r.updatedAt == now && r.geminiModel == s.geminiModel
    ensures r.frontalThumbDataUrl == ThumbnailFor(s.frontal, makeThumb)
    ensures forall t :: r.selectedImages.Get(t) == s.Tab(t).selectedImageId
    ensures existing.Some? ==> r.name == existing.value.name && r.createdAt == existing.value.createdAt
    ensures existing.None? ==> r.name == DefaultName(ThumbnailSource(s.frontal)) && r.createdAt == now
  {
    var name := DefaultName(ThumbnailSource(s.frontal));
    SessionRecord(
      id,
      if existing.Some? then existing.value.name else name,
      if existing.Some? then existing.value.createdAt else now,
      now,
      ThumbnailFor(s.frontal, makeThumb),
      SelectedImages(s.frontal.selectedImageId, s.back.selectedImageId, s.base.selectedImageId),
      s.geminiModel)
  }

  /**
   * The sessions table after `persistSessionToDB(s)`: without a current
   * session nothing is written; otherwise that one row is put and every
   * other row stays.
   */
  function Persisted(s: AppState, table: map<string, SessionRecord>,
                     makeThumb: string -> Option<string>, now: int): (r: map<string, SessionRecord>)
    ensures !IsSet(s.currentSessionId) ==> r == table
    ensures IsSet(s.currentSessionId) ==> r.Keys == table.Keys + {s.currentSessionId.value}
    ensures forall k :: k in table && !(IsSet(s.currentSessionId) && k == s.currentSessionId.value) ==>
      r[k] == table[k]
    ensures IsSet(s.currentSessionId) ==>
      var id := s.currentSessionId.value;
      r[id].id == id && r[id].updatedAt == now &&
      (id in table ==> r[id].name == table[id].name && r[id].createdAt == table[id].createdAt)
  {
    if !IsSet(s.currentSessionId) then table
    else
      var id := s.currentSessionId.value;
      var existing := if id in table then Some(table[id]) else None;
      table[id := SessionToSave(s, id, existing, makeThumb, now)]
  }

  /** An image `addImage` appends to a view: it joins the end of the gallery and becomes the selection. */
  function Appended(s: TabState, image: GeneratedImage): (r: TabState)
    ensures r.images == s.images + [image] && r.selectedImageId == Some(image.id)
    ensures r.isGenerating == s.isGenerating
  {
    s.(images := s.images + [image], selectedImageId := Some(image.id))
  }

  /** The UI image `loadSession` makes of a stored record and the data URL read from its blob. */
  function ToImage(record: ImageRecord, dataUrl: string): GeneratedImage {
    GeneratedImage(record.id, dataUrl, record.prompt, record.timestamp)
  }

  /** Every blob of `records` reads back as a data URL. */
  predicate AllReadable(records: seq<ImageRecord>, reader: Blob -> Option<string>) {
    forall i :: 0 <= i < |records| ==> reader(records[i].blob).Some?
  }

  /** The images of view `t` the loop over `records` pushes, in record order. */
  function TabImages(records: seq<ImageRecord>, t: TabId, reader: Blob -> Option<string>): seq<GeneratedImage>
    requires AllReadable(records, reader)
  {
    if records == [] then []
    else
      var last := records[|records| - 1];
      TabImages(records[..|records| - 1], t, reader)
        + (if last.tab == t then [ToImage(last, reader(last.blob).value)] else [])
  }

  /** The loop partitions the records: every record lands in exactly one view. */
  lemma {:induction false} TabImagesPartition(records: seq<ImageRecord>, reader: Blob -> Option<string>)
    requires AllReadable(records, reader)
    ensures |TabImages(records, Frontal, reader)| + |TabImages(records, Back, reader)|
          + |TabImages(records, Base, reader)| == |records|
    decreases |records|
  {
    if records != [] {
      TabImagesPartition(records[..|records| - 1], reader);
    }
  }

  /** Each image of a view comes from a record of that view. */
  lemma {:induction false} TabImagesFromTab(records: seq<ImageRecord>, t: TabId, reader: Blob -> Option<string>)
    requires AllReadable(records, reader)
    ensures forall img :: img in TabImages(records, t, reader) ==>
      exists i :: 0 <= i < |records| && records[i].tab == t && img.id == records[i].id
    decreases |records|
  {
    if records != [] {
      var init := records[..|records| - 1];
      TabImagesFromTab(init, t, reader);
      forall img | img in TabImages(records, t, reader)
        ensures exists i :: 0 <= i < |records| && records[i].tab == t && img.id == records[i].id
      {
        if img in TabImages(init, t, reader) {
          var i :| 0 <= i < |init| && init[i].tab == t && img.id == init[i].id;
          assert records[i] == init[i];
        } else {
          assert records[|records| - 1].tab == t;
        }
      }
    }
  }

  /** The other direction: the image of each record is in the view the record names. */
  lemma {:induction false} TabImagesCover(records: seq<ImageRecord>, reader: Blob -> Option<string>)
    requires AllReadable(records, reader)
    ensures forall i :: 0 <= i < |records| ==>
      ToImage(records[i], reader(records[i].blob).value) in TabImages(records, records[i].tab, reader)
    decreases |records|
  {
    if records != [] {
      var init := records[..|records| - 1];
      TabImagesCover(init, reader);
      forall i | 0 <= i < |records|
        ensures ToImage(records[i], reader(records[i].blob).value) in TabImages(records, records[i].tab, reader)
      {
        if i < |init| {
          assert records[i] == init[i];
          assert TabImages(init, init[i].tab, reader) <= TabImages(records, init[i].tab, reader);
        }
      }
    }
  }

  /** `stored ?? images[0]?.id ?? null`: a stored selection wins, even an empty one; else the first image. */
  function InitialSelection(stored: Option<string>, images: seq<GeneratedImage>): Option<string> {
    if stored.Some? then stored
    else if images != [] then Some(images[0].id)
    else None
  }

  /** The state `loadSession` sets for a stored session and its image records. */
  function Restored(s: AppState, id: string, session: SessionRecord, records: seq<ImageRecord>,
                    reader: Blob -> Option<string>): (r: AppState)
    requires AllReadable(records, reader)
    ensures r.currentSessionId == Some(id) && r.activeTab == Frontal && r.geminiModel == session.geminiModel
    ensures forall t :: r.Tab(t).images == TabImages(records, t, reader) && !r.Tab(t).isGenerating
    ensures forall t :: session.selectedImages.Get(t).Some? ==> r.Tab(t).selectedImageId == session.selectedImages.Get(t)
    ensures forall t :: session.selectedImages.Get(t).None? && r.Tab(t).images != [] ==>
      r.Tab(t).selectedImageId == Some(r.Tab(t).images[0].id)
    ensures forall t :: session.selectedImages.Get(t).None? && r.Tab(t).images == [] ==> r.Tab(t).selectedImageId.None?
    ensures r.apiKey == s.apiKey && r.sessions == s.sessions && r.sidebarOpen == s.sidebarOpen
  {
    var f := TabImages(records, Frontal, reader);
    var b := TabImages(records, Back, reader);
    var g := TabImages(records, Base, reader);
    s.(currentSessionId := Some(id), activeTab := Frontal, geminiModel := session.geminiModel,
       frontal := TabState(f, InitialSelection(session.selectedImages.frontal, f), false),
       back := TabState(b, InitialSelection(session.selectedImages.back, b), false),
       base := TabState(g, InitialSelection(session.selectedImages.base, g), false))
  }

  /** The state with the three views emptied, the session cleared and the frontal view shown. */
  function Cleared(s: AppState): (r: AppState)
    ensures r.currentSessionId.None? && r.activeTab == Frontal
    ensures forall t :: r.Tab(t) == EmptyTabState()
    ensures r.apiKey == s.apiKey && r.sessions == s.sessions && r.sidebarOpen == s.sidebarOpen
    ensures r.geminiModel == s.geminiModel
  {
    s.(currentSessionId := None, activeTab := Frontal,
       frontal := EmptyTabState(), back := EmptyTabState(), base := EmptyTabState())
  }

  /**
   * The `for … of` loop of `loadSession`: read each record's blob back into
   * a data URL and push the image onto its view's list. A failed read stops
   * the loop (`ok` is false).
   */
  method PartitionByTab(records: seq<ImageRecord>, reader: Blob -> Option<string>)
    returns (ok: bool, frontalImages: seq<GeneratedImage>, backImages: seq<GeneratedImage>,
             baseImages: seq<GeneratedImage>)
    ensures ok <==> AllReadable(records, reader)
    ensures ok ==> frontalImages == TabImages(records, Frontal, reader)
    ensures ok ==> backImages == TabImages(records, Back, reader)
    ensures ok ==> baseImages == TabImages(records, Base, reader)
  {
    frontalImages, backImages, baseImages := [], [], [];
    for i := 0 to |records|
      invariant AllReadable(records[..i], reader)
      invariant frontalImages == TabImages(records[..i], Frontal, reader)
      invariant backImages == TabImages(records[..i], Back, reader)
      invariant baseImages == TabImages(records[..i], Base, reader)
    {
      var record := records[i];
      var dataUrl := reader(record.blob);
      if dataUrl.None? {
        return false, frontalImages, backImages, baseImages;
      }
      var img := ToImage(record, dataUrl.value);
      assert records[..i + 1][..i] == records[..i] && records[..i + 1][i] == record;
      match record.tab
      case Frontal => frontalImages := frontalImages + [img];
      case Back => backImages := backImages + [img];
      case Base => baseImages := baseImages + [img];
    }
    assert records[..|records|] == records;
    return true, frontalImages, backImages, baseImages;
  }

  /** How `loadSession` ended: the session was missing, a blob failed to read, or the state was replaced. */
  datatype LoadOutcome = NotFound | ReadFailed | Loaded

  class AppStore {
    var apiKey: Option<string>
    var activeTab: TabId
    var frontal: TabState
    var back: TabState
    var base: TabState
    var currentSessionId: Option<string>
    var sessions: seq<SessionMeta>
    var sidebarOpen: bool
    var geminiModel: GeminiModel
    const db: Db.RecordStore

    function State(): AppState
      reads this
    {
      AppState(apiKey, activeTab, frontal, back, base, currentSessionId, sessions, sidebarOpen, geminiModel)
    }

    /** The record store is consistent, and the view on screen is one the user may navigate to. */
    ghost predicate Valid()
      reads this, db
    {
      db.Valid() && State().CanNavigateToTab(activeTab)
    }

    /** The initial state; the saved API key is whatever local storage held. */
    constructor(db: Db.RecordStore, storedApiKey: Option<string>)
      requires db.Valid()
      ensures Valid() && this.db == db
      ensures State() == AppState(storedApiKey, Frontal, EmptyTabState(), EmptyTabState(), EmptyTabState(),
                                  None, [], true, DefaultModel)
    {
      this.db := db;
      apiKey := storedApiKey;
      activeTab := Frontal;
      frontal := EmptyTabState();
      back := EmptyTabState();
      base := EmptyTabState();
      currentSessionId := None;
      sessions := [];
      sidebarOpen := true;
      geminiModel := DefaultModel;
    }

    /** Replace every field by those of `s`. */
    method Assign(s: AppState)
      modifies this
      ensures State() == s
    {
      apiKey, activeTab, currentSessionId, sessions := s.apiKey, s.activeTab, s.currentSessionId, s.sessions;
      frontal, back, base := s.frontal, s.back, s.base;
      sidebarOpen, geminiModel := s.sidebarOpen, s.geminiModel;
    }

    /** The sidebar list refreshed from the record store (`listSessions().then(…)`). */
    method RefreshSessions()
      requires Valid()
      modifies this
      ensures Valid()
      ensures State() == old(State()).(sessions := SessionList(db.ListSessions()))
    {
      sessions := SessionList(db.ListSessions());
    }

    /** `setApiKey`: the key is kept in the state (its copy in local storage is not modelled). */
    method SetApiKey(key: string)
      requires Valid()
      modifies this
      ensures Valid()
      ensures State() == old(State()).(apiKey := Some(key))
    {
      apiKey := Some(key);
    }

    /** `setActiveTab`: switch only to a view that may be navigated to. */
    method SetActiveTab(t: TabId)
      requires Valid()
      modifies this
      ensures Valid()
      ensures State() == old(State()).(activeTab := if old(State()).CanNavigateToTab(t) then t else old(activeTab))
    {
      if State().CanNavigateToTab(t) {
        activeTab := t;
      }
    }

    /** `persistSessionToDB` on the current state. */
    method PersistSession(makeThumb: string -> Option<string>, now: int)
      requires Valid()
      modifies db
      ensures Valid()
      ensures db.sessions == Persisted(State(), old(db.sessions), makeThumb, now)
      ensures db.images == old(db.images)
    {
      if !IsSet(currentSessionId) {
        return;
      }
      var id := currentSessionId.value;
      var existing := db.GetSession(id);
      var record := SessionToSave(State(), id, existing, makeThumb, now);
      db.SaveSession(record);
    }

    /** The synchronous start of `addImage`: the session id it settles on, and the image appended and selected. */
    method AppendImage(tab: TabId, image: GeneratedImage, freshId: string) returns (sessionId: string)
      requires Valid()
      modifies this
      ensures Valid()
      ensures sessionId == if IsSet(old(currentSessionId)) then old(currentSessionId).value else freshId
      ensures State() == old(State()).WithTab(tab, Appended(old(State()).Tab(tab), image))
                           .(currentSessionId := Some(sessionId))
    {
      sessionId := if IsSet(currentSessionId) then currentSessionId.value else freshId;
      Assign(State().WithTab(tab, Appended(State().Tab(tab), image)).(currentSessionId := Some(sessionId)));
    }

    /**
     * `addImage`: make sure there is a session (a fresh id when the current
     * one is unset), append the image to the view and select it, then
     * convert its data URL to a blob. That conversion throws synchronously
     * when the payload does not decode (`threw`), and nothing is written;
     * otherwise the image is saved, the session persisted and the sidebar
     * list refreshed.
     */
    method AddImage(tab: TabId, image: GeneratedImage, freshId: string,
                    makeThumb: string -> Option<string>, now: int) returns (threw: bool)
      requires Valid()
      modifies this, db
      ensures Valid()
      ensures threw <==> Codec.ParseBlob(image.dataUrl).None?
      ensures currentSessionId == Some(if IsSet(old(currentSessionId)) then old(currentSessionId).value else freshId)
      ensures State() == old(State()).WithTab(tab, Appended(old(State()).Tab(tab), image))
                           .(currentSessionId := currentSessionId, sessions := sessions)
      ensures threw ==> sessions == old(sessions) && db.sessions == old(db.sessions) && db.images == old(db.images)
      ensures !threw ==>
        db.images == old(db.images)[image.id := ImageRecord(image.id, currentSessionId.value, tab,
                                                            Codec.ParseBlob(image.dataUrl).value,
                                                            image.prompt, image.timestamp)]
      ensures !threw ==> db.sessions == Persisted(State(), old(db.sessions), makeThumb, now)
      ensures !threw ==> sessions == SessionList(db.ListSessions())
    {
      var sessionId := AppendImage(tab, image, freshId);
      ghost var appended := State();
      var blob := Codec.DataUrlToBlob(image.dataUrl);
      if blob.None? {
        return true;
      }
      db.SaveImage(ImageRecord(image.id, sessionId, tab, blob.value, image.prompt, image.timestamp));
      PersistSession(makeThumb, now);
      RefreshSessions();
      assert State() == appended.(sessions := sessions);
      return false;
    }

    /** `selectImage`: record the selection, then persist the session's selections. */
    method SelectImage(tab: TabId, imageId: string, makeThumb: string -> Option<string>, now: int)
      requires Valid()
      modifies this, db
      ensures Valid()
      ensures State() == old(State()).WithTab(tab, old(State()).Tab(tab).(selectedImageId := Some(imageId)))
      ensures db.sessions == Persisted(State(), old(db.sessions), makeThumb, now)
      ensures db.images == old(db.images)
    {
      var s := State().WithTab(tab, State().Tab(tab).(selectedImageId := Some(imageId)));
      Assign(s);
      if IsSet(currentSessionId) {
        PersistSession(makeThumb, now);
      }
    }

    /** `setGenerating`: the view's spinner flag. */
    method SetGenerating(tab: TabId, isGenerating: bool)
      requires Valid()
      modifies this
      ensures Valid()
      ensures State() == old(State()).WithTab(tab, old(State()).Tab(tab).(isGenerating := isGenerating))
    {
      var s := State().WithTab(tab, State().Tab(tab).(isGenerating := isGenerating));
      Assign(s);
    }

    /**
     * `getSelectedImage`: the view's image with the selected id; nothing when
     * the selection is unset or empty, or no image has that id.
     */
    function GetSelectedImage(tab: TabId): (r: Option<GeneratedImage>)
      reads this
      ensures r.Some? ==> IsSet(State().Tab(tab).selectedImageId)
      ensures r.Some? ==> r.value in State().Tab(tab).images && r.value.id == State().Tab(tab).selectedImageId.value
      ensures r.None? && IsSet(State().Tab(tab).selectedImageId) ==>
        forall i :: 0 <= i < |State().Tab(tab).images| ==>
          State().Tab(tab).images[i].id != State().Tab(tab).selectedImageId.value
      ensures IsSet(State().Tab(tab).selectedImageId) &&
              FindImage(State().Tab(tab).images, State().Tab(tab).selectedImageId.value).Some? ==>
        r == Some(State().Tab(tab).images[FindImage(State().Tab(tab).images, State().Tab(tab).selectedImageId.value).value])
    {
      var ts := State().Tab(tab);
      if !IsSet(ts.selectedImageId) then None
      else
        match FindImage(ts.images, ts.selectedImageId.value)
        case None => None
        case Some(i) => Some(ts.images[i])
    }

    /** `setGeminiModel`: the model is set, then persisted with the current session. */
    method SetGeminiModel(model: GeminiModel, makeThumb: string -> Option<string>, now: int)
      requires Valid()
      modifies this, db
      ensures Valid()
      ensures State() == old(State()).(geminiModel := model)
      ensures db.sessions == Persisted(State(), old(db.sessions), makeThumb, now)
      ensures db.images == old(db.images)
    {
      geminiModel := model;
      if IsSet(currentSessionId) {
        PersistSession(makeThumb, now);
      }
    }

    /** `setSessions`: replace the sidebar list. */
    method SetSessions(list: seq<SessionMeta>)
      requires Valid()
      modifies this
      ensures Valid()
      ensures State() == old(State()).(sessions := list)
    {
      sessions := list;
    }

    /**
     * `loadSession`: a missing session changes nothing; otherwise each image
     * record's blob is read back into a data URL and the record joins its
     * view's gallery. A failed read rejects the whole action before any
     * state is set.
     */
    method LoadSession(id: string, reader: Blob -> Option<string>) returns (r: LoadOutcome)
      requires Valid()
      modifies this
      ensures Valid()
      ensures id !in db.sessions ==> r == NotFound && State() == old(State())
      ensures id in db.sessions && !AllReadable(db.LoadImagesBySession(id), reader) ==>
        r == ReadFailed && State() == old(State())
      ensures id in db.sessions && AllReadable(db.LoadImagesBySession(id), reader) ==>
        r == Loaded && State() == Restored(old(State()), id, db.sessions[id], db.LoadImagesBySession(id), reader)
    {
      var session := db.GetSession(id);
      if session.None? {
        return NotFound;
      }
      var records := db.LoadImagesBySession(id);
      var ok, frontalImages, backImages, baseImages := PartitionByTab(records, reader);
      if !ok {
        return ReadFailed;
      }
      Assign(Restored(State(), id, session.value, records, reader));
      return Loaded;
    }

    /** `newSession`: empty views, no current session, the frontal view, the default model. */
    method NewSession()
      requires Valid()
      modifies this
      ensures Valid()
      ensures State() == Cleared(old(State())).(geminiModel := DefaultModel)
    {
      Assign(Cleared(State()).(geminiModel := DefaultModel));
    }

    /** The three views emptied, the session forgotten, the frontal view shown. */
    method ClearViews()
      requires Valid()
      modifies this
      ensures Valid()
      ensures State() == Cleared(old(State()))
    {
      Assign(Cleared(State()));
    }

    /**
     * `deleteSessionById`: delete the session and its images, refresh the
     * sidebar list, and clear the views when it was the current session
     * (the model is left as it was).
     */
    method DeleteSessionById(id: string)
      requires Valid()
      modifies this, db
      ensures Valid()
      ensures db.sessions == old(db.sessions) - {id}
      ensures Db.ImagesWithout(old(db.images), db.images, id)
      ensures old(currentSessionId) == Some(id) ==>
        State() == Cleared(old(State())).(sessions := SessionList(db.ListSessions()))
      ensures old(currentSessionId) != Some(id) ==>
        State() == old(State()).(sessions := SessionList(db.ListSessions()))
    {
      db.DeleteSession(id);
      RefreshSessions();
      if currentSessionId == Some(id) {
        ClearViews();
      }
    }

    /** `renameSession`: a stored session takes the new name and the update time now; the list is refreshed. */
    method RenameSession(id: string, name: string, now: int)
      requires Valid()
      modifies this, db
      ensures Valid()
      ensures id !in old(db.sessions) ==> State() == old(State()) && db.sessions == old(db.sessions)
      ensures id in old(db.sessions) ==>
        db.sessions == old(db.sessions)[id := old(db.sessions)[id].(name := name, updatedAt := now)]
      ensures id in old(db.sessions) ==> State() == old(State()).(sessions := SessionList(db.ListSessions()))
      ensures db.images == old(db.images)
    {
      var session := db.GetSession(id);
      if session.None? {
        return;
      }
      db.SaveSession(session.value.(name := name, updatedAt := now));
      RefreshSessions();
    }

    /** `toggleSidebar`. */
    method ToggleSidebar()
      requires Valid()
      modifies this
      ensures Valid()
      ensures State() == old(State()).(sidebarOpen := !old(sidebarOpen))
    {
      sidebarOpen := !sidebarOpen;
    }
  }
}
