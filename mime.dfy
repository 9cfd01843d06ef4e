/** `ext_from_mime`: the fixed allow-list from a sniffed MIME type to the
    file extension the stored image gets. */
module Mime {
  import opened Wrappers
  import opened Text

  /** The allow-list, keyed by lower-case MIME type. */
  const MimeMap: map<string, string> := map[
    "image/jpeg" := "jpg",
    "image/png"  := "png",
    "image/gif"  := "gif",
    "image/webp" := "webp"
  ]

  /** Every extension a stored image can carry. */
  const Extensions: set<string> := {"jpg", "png", "gif", "webp"}

  /** Lower-cases the MIME type and looks it up; `None` is PHP's `null`. */
  function ExtFromMime(mime: string): (ext: Option<string>)
    ensures ext.Some? ==> ext.value in Extensions
  {
    var m := Lower(mime);
    if m in MimeMap then Some(MimeMap[m]) else None
  }

  /** The table exactly: each of the four types maps to its extension,
      compared without regard to ASCII case, and every other type maps to `null`. */
  lemma ExtFromMimeTable(mime: string)
    ensures ExtFromMime(mime) == Some("jpg") <==> Lower(mime) == "image/jpeg"
    ensures ExtFromMime(mime) == Some("png") <==> Lower(mime) == "image/png"
    ensures ExtFromMime(mime) == Some("gif") <==> Lower(mime) == "image/gif"
    ensures ExtFromMime(mime) == Some("webp") <==> Lower(mime) == "image/webp"
    ensures ExtFromMime(mime) == None <==>
      Lower(mime) != "image/jpeg" && Lower(mime) != "image/png"
      && Lower(mime) != "image/gif" && Lower(mime) != "image/webp"
  {
  }

  /** Case does not matter: a type and its lower-case form map alike. */
  lemma ExtFromMimeCaseInsensitive(mime: string)
    ensures ExtFromMime(mime) == ExtFromMime(Lower(mime))
  {
    LowerIdempotent(mime);
  }

  /** An upper-case spelling is accepted. */
  lemma ExtFromMimeUpperCase()
    ensures ExtFromMime("IMAGE/PNG") == Some("png")
    ensures ExtFromMime("Image/JPEG") == Some("jpg")
  {
    LowerIs("IMAGE/PNG", "image/png");
    LowerIs("Image/JPEG", "image/jpeg");
  }

  /** `image/jpg` is not a registered type and is refused, although `jpg`
      is the extension that `image/jpeg` gets. */
  lemma ExtFromMimeRejectsJpg()
    ensures ExtFromMime("image/jpg") == None
  {
    LowerIs("image/jpg", "image/jpg");
  }

  /** Non-image types are refused. */
  lemma ExtFromMimeRejectsHtml()
    ensures ExtFromMime("text/html") == None
  {
    LowerIs("text/html", "text/html");
  }
}
