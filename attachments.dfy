/**
 * Attachments: a remote file is fetched into the upload directory and
 * checked, the URLs it was known by are recorded for the final URL
 * substitution, and an attachment post is created for it.
 */
module Attachments {
  import opened Wrappers
  import opened Site
  import opened Session
  import Php
  import Urls

  datatype FetchError =
    | NotAllowed
    | UploadDirError(message: string)
    | NoResponse
    | ErrorResponse(status: int)
    | IncorrectSize
    | ZeroSize
    | TooLarge(limit: int)

  /** A download the importer keeps: an answer of 200 whose size matches its header, is not 0 and is within the limit (0 for none). */
  predicate Acceptable(t: Transfer, maxSize: int) {
    t.headers.Some? && t.headers.value.status == 200 &&
    (t.headers.value.contentLength.None? || t.headers.value.contentLength.value == t.size) &&
    t.size != 0 && (maxSize == 0 || t.size <= maxSize)
  }

  /** The checks of fetch_remote_file after the download, in the order it makes them. */
  function CheckTransfer(t: Transfer, maxSize: int): (r: Option<FetchError>)
    ensures r.None? <==> Acceptable(t, maxSize)
    ensures r.Some? ==> r.value in {NoResponse, ErrorResponse(if t.headers.Some? then t.headers.value.status else 0),
                                    IncorrectSize, ZeroSize, TooLarge(maxSize)}
    ensures t.headers.None? ==> r == Some(NoResponse)
    ensures t.headers.Some? && t.headers.value.status != 200 ==> r == Some(ErrorResponse(t.headers.value.status))
    ensures t.headers.Some? && t.headers.value.status == 200 && t.headers.value.contentLength.Some? &&
              t.size != t.headers.value.contentLength.value
            ==> r == Some(IncorrectSize)
    ensures t.headers.Some? && t.headers.value.status == 200 &&
              (t.headers.value.contentLength.None? || t.size == t.headers.value.contentLength.value)
            ==> (t.size == 0 ==> r == Some(ZeroSize)) &&
                (t.size != 0 && maxSize != 0 && t.size > maxSize ==> r == Some(TooLarge(maxSize)))
  {
    match t.headers
    case None => Some(NoResponse)
    case Some(h) =>
      if h.status != 200 then Some(ErrorResponse(h.status))
      else if h.contentLength.Some? && t.size != h.contentLength.value then Some(IncorrectSize)
      else if t.size == 0 then Some(ZeroSize)
      else if maxSize != 0 && t.size > maxSize then Some(TooLarge(maxSize))
      else None
  }

  /** The remap entries of a kept download: the fetched URL, the post's guid and, when it differs, the final location. */
  function RecordRemap(remap: map<string, string>, url: string, guid: string, h: Headers, local: string): (r: map<string, string>)
    ensures url in r && r[url] == local && guid in r && r[guid] == local
    ensures h.finalLocation.Some? && h.finalLocation.value != url ==> h.finalLocation.value in r && r[h.finalLocation.value] == local
    ensures forall k :: k in r <==> k in remap || k == url || k == guid || (h.finalLocation.Some? && k == h.finalLocation.value && k != url)
    ensures forall k :: k in remap && k != url && k != guid && (h.finalLocation.None? || k != h.finalLocation.value) ==> r[k] == remap[k]
  {
    var r := remap[url := local][guid := local];
    if h.finalLocation.Some? && h.finalLocation.value != url then r[h.finalLocation.value := local] else r
  }

  /**
   * fetch_remote_file for a URL and the post it belongs to. The download
   * (placeholder file and HTTP fetch) comes from the environment; a
   * rejected download's file is deleted again and nothing is recorded.
   */
  function FetchRemoteFile(s: State, env: Env, url: string, guid: string, date: string): (r: (State, Result<Transfer, FetchError>))
    ensures var t := env.download(url, date);
      (r.1.Ok? <==> !Php.Truthy(t.uploadError) && Acceptable(t, env.maxAttachmentSize)) &&
      (r.1.Ok? ==> r.1.value == t && t.file in r.0.db.uploads)
    ensures r.1.Err? ==> r.0.urlRemap == s.urlRemap
    ensures r.1.Ok? ==> r.0.urlRemap == RecordRemap(s.urlRemap, url, guid, r.1.value.headers.value, r.1.value.url)
    ensures r.0 == s.(db := r.0.db, urlRemap := r.0.urlRemap)
    ensures r.0.db == s.db.(uploads := r.0.db.uploads)
    ensures r.1.Err? ==> r.0.db.uploads <= s.db.uploads
  {
    var t := env.download(url, date);
    if Php.Truthy(t.uploadError) then (s, Err(UploadDirError(t.uploadError)))
    else
      var placed := s.db.(uploads := s.db.uploads + {t.file});
      match CheckTransfer(t, env.maxAttachmentSize)
      case Some(e) => (s.(db := placed.(uploads := placed.uploads - {t.file})), Err(e))
      case None => (s.(db := placed, urlRemap := RecordRemap(s.urlRemap, url, guid, t.headers.value, t.url)), Ok(t))
  }

  /** Whether a MIME type names an image. */
  predicate IsImage(mime: string) {
    |mime| >= 6 && mime[..6] == "image/"
  }

  /** The attachment row: the detected MIME type and the local URL as guid. */
  function AttachmentRow(row: Post, mime: string, t: Transfer): Post {
    row.(mimeType := mime, guid := t.url)
  }

  /**
   * process_attachment. Refused unless fetching is on and the URL is not
   * empty; a root-relative URL is joined to the export's base URL. The id
   * is that of the new attachment, or 0 when the site refused the row.
   * For an image with a thumbnail, the guessed URL of the old thumbnail is
   * remapped to the new one.
   */
  function ProcessAttachment(s: State, cfg: Config, row: Post, url: string): (r: (State, Result<int, FetchError>))
    ensures !(cfg.fetchAttachments && Php.Truthy(url)) ==> r == (s, Err(NotAllowed))
    ensures cfg.fetchAttachments && Php.Truthy(url) ==>
      var u := Urls.NormalizeUrl(cfg.baseUrl, url);
      var f := FetchRemoteFile(s, cfg.env, u, row.guid, row.date);
      (r.1.Ok? <==> f.1.Ok?) &&
      (f.1.Err? ==> r == (f.0, Err(f.1.error))) &&
      (f.1.Ok? ==>
        var a := AttachmentRow(row, cfg.env.fileType(f.1.value.file), f.1.value);
        (r.1.value == (if cfg.rules.acceptsAttachment(f.0.db, a) then |s.db.posts| + 1 else 0)) &&
        (r.0.db == if r.1.value != 0 then AddPost(f.0.db, a) else f.0.db) &&
        (r.1.value != 0 ==> r.0.db.posts[r.1.value - 1] == a) &&
        var thumb := cfg.env.thumbUrl(r.0.db, r.1.value);
        r.0.urlRemap == if IsImage(a.mimeType) && Php.Truthy(thumb) then f.0.urlRemap[Urls.ThumbnailGuess(u) := thumb] else f.0.urlRemap)
    ensures r.0 == s.(db := r.0.db, urlRemap := r.0.urlRemap)
    ensures Grows(s.db, r.0.db) && s.db.posts <= r.0.db.posts
  {
    if !(cfg.fetchAttachments && Php.Truthy(url)) then (s, Err(NotAllowed))
    else
      var u := Urls.NormalizeUrl(cfg.baseUrl, url);
      var f := FetchRemoteFile(s, cfg.env, u, row.guid, row.date);
      match f.1
      case Err(e) => (f.0, Err(e))
      case Ok(t) =>
        var mime := cfg.env.fileType(t.file);
        var a := AttachmentRow(row, mime, t);
        var id := if cfg.rules.acceptsAttachment(f.0.db, a) then |f.0.db.posts| + 1 else 0;
        var db := if id != 0 then AddPost(f.0.db, a) else f.0.db;
        var thumb := cfg.env.thumbUrl(db, id);
        var remap := if IsImage(mime) && Php.Truthy(thumb) then f.0.urlRemap[Urls.ThumbnailGuess(u) := thumb] else f.0.urlRemap;
        (f.0.(db := db, urlRemap := remap), Ok(id))
  }

  /**
   * The URL remap after an attachment: the fetched URL and the post's guid
   * lead to the local file, and so does the final location of a
   * redirect, unless an image's thumbnail guess coincides with one of them.
   */
  lemma AttachmentUrlsRemapped(s: State, cfg: Config, row: Post, url: string)
    requires cfg.fetchAttachments && Php.Truthy(url)
    requires ProcessAttachment(s, cfg, row, url).1.Ok?
    ensures var u := Urls.NormalizeUrl(cfg.baseUrl, url);
      var t := cfg.env.download(u, row.date);
      var r := ProcessAttachment(s, cfg, row, url).0;
      Acceptable(t, cfg.env.maxAttachmentSize) && t.file in r.db.uploads &&
      (u != Urls.ThumbnailGuess(u) || !IsImage(cfg.env.fileType(t.file)) ==> u in r.urlRemap && r.urlRemap[u] == t.url) &&
      (forall k :: k in s.urlRemap ==> k in r.urlRemap)
  {
  }
}
