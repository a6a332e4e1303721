/**
 * The decision logic of `get_ugoira_frames`: locate the embedded metadata,
 * decode it, rewrite the archive URL, and write the descriptor.
 *
 * The page text is a parameter (the network fetch is not modelled), and so is
 * the JSON decoder: `decode(text)` is `None` when `json.loads` raises
 * `JSONDecodeError`. Downloading and unpacking the archive happen between the
 * URL rewrite and the descriptor; they are not modelled, and the outcome names
 * the URL they would use.
 */
module GetFrames {
  import opened Wrappers
  import opened Ffconcat
  import opened UrlRewrite
  import opened MetadataLocator

  /** A decoded JSON value, as far as the code inspects it. */
  datatype Json =
    | Falsy                                  // a value Python treats as false: {}, [], null, 0, "", false
    | Ugoira(src: string, frames: seq<Frame>) // an object with "src" and "frames"

  datatype Outcome =
    | Unavailable                                         // returns False; nothing fetched or written
    | EmptyFrameList(archiveUrl: string, written: string) // raises IndexError after writing the header
    | Done(archiveUrl: string, written: string)           // returns True

  /** The metadata the function goes on with, if any: the captured text
      (when non-empty) passed through the decoder. */
  function Decoded(page: string, decode: string -> Option<Json>): Option<Json>
  {
    match Locate(page)
    case None => None
    case Some(text) => if |text| > 0 then decode(text) else None
  }

  /** The source's `is_process_success`. */
  predicate Succeeded(r: Outcome) { r.Done? }

  method GetUgoiraFrames(page: string, decode: string -> Option<Json>) returns (r: Outcome)
    ensures r.Unavailable? <==> Decoded(page, decode).None? || Decoded(page, decode).value.Falsy?
    ensures !r.Unavailable? ==> Decoded(page, decode).Some? && Decoded(page, decode).value.Ugoira?
    ensures !r.Unavailable? ==> r.archiveUrl == Rewrite(Decoded(page, decode).value.src)
    ensures r.EmptyFrameList? <==> !r.Unavailable? && Decoded(page, decode).value.frames == []
    ensures r.EmptyFrameList? ==> r.written == Header
    ensures r.Done? ==> r.written == Descriptor(Decoded(page, decode).value.frames)
  {
    var found := Locate(page);
    var json: Option<Json> := None;
    if found.Some? && |found.value| > 0 {
      json := decode(found.value);
    }
    if json.Some? && json.value.Ugoira? {
      var archiveUrl := Rewrite(json.value.src);
      var data := new UgoiraData(json.value.src, json.value.frames);
      if |data.frames| == 0 {
        r := EmptyFrameList(archiveUrl, Header);
      } else {
        var text := WriteFfconcat(data);
        r := Done(archiveUrl, text);
      }
    } else {
      r := Unavailable;
    }
  }

  /** A page in which the marker assignment matches nowhere makes the function
      return False. */
  lemma NoMarkerFails(page: string, decode: string -> Option<Json>)
    requires forall p: nat, w: nat, c: string :: !IsMatch(page, p, w, c)
    ensures Decoded(page, decode).None?
  {
    LocateNone(page);
  }

  /** The check that the group is non-empty never fails: a found capture is
      always handed to the decoder. */
  lemma CaptureAlwaysDecoded(page: string, decode: string -> Option<Json>)
    ensures Decoded(page, decode) == if Locate(page).Some? then decode(Locate(page).value) else None
  {
    if Locate(page).Some? {
      LocateCapture(page);
    }
  }
}
