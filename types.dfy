/**
 * The value types shared by the session store, the record store and the
 * generation client: views (tabs), model names, in-memory images, tab
 * states, and the two persisted record kinds.
 */
module Types {
  import opened Wrappers

  /** One byte of a binary payload (an element of a `Uint8Array`). */
  newtype byte = x: int | 0 <= x < 256

  /** The three views of a miniature: `"frontal" | "back" | "base"`. */
  datatype TabId = Frontal | Back | Base

  /** The view's name as the source spells it. */
  function TabName(t: TabId): string
  {
    match t
    case Frontal => "frontal"
    case Back => "back"
    case Base => "base"
  }

  /** The two generation models the application offers. */
  datatype GeminiModel = Flash25Image | Pro3ImagePreview

  /** The model's identifier as sent to the generation service. */
  function ModelName(m: GeminiModel): string {
    match m
    case Flash25Image => "gemini-2.5-flash-image"
    case Pro3ImagePreview => "gemini-3-pro-image-preview"
  }

  /** The model a fresh state (and a new session) starts with. */
  const DefaultModel: GeminiModel := Flash25Image

  /** A generated or uploaded image as the UI holds it: its payload is a data URL. */
  datatype GeneratedImage = GeneratedImage(id: string, dataUrl: string, prompt: string, timestamp: int)

  /** Per-view UI state: the gallery, the selected image's id, and the spinner flag. */
  datatype TabState = TabState(images: seq<GeneratedImage>, selectedImageId: Option<string>, isGenerating: bool)

  /** The sidebar's summary of one stored session. */
  datatype SessionMeta = SessionMeta(
    id: string,
    name: string,
    createdAt: int,
    updatedAt: int,
    frontalThumbDataUrl: Option<string>)

  /** The persisted selection of each view (`Record<TabId, string | null>`). */
  datatype SelectedImages = SelectedImages(frontal: Option<string>, back: Option<string>, base: Option<string>) {
    function Get(t: TabId): Option<string> {
      match t
      case Frontal => frontal
      case Back => back
      case Base => base
    }
  }

  /** A row of the `sessions` table, keyed by `id`. */
  datatype SessionRecord = SessionRecord(
    id: string,
    name: string,
    createdAt: int,
    updatedAt: int,
    frontalThumbDataUrl: Option<string>,
    selectedImages: SelectedImages,
    geminiModel: GeminiModel)

  /** A binary object: its MIME type and its bytes. */
  datatype Blob = Blob(mime: string, bytes: seq<byte>)

  /** A row of the `images` table, keyed by `id` and indexed by `sessionId`. */
  datatype ImageRecord = ImageRecord(
    id: string,
    sessionId: string,
    tab: TabId,
    blob: Blob,
    prompt: string,
    timestamp: int)
}
