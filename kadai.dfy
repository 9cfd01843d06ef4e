/** The request handler of public/kadai.php: the validation chain a new
    post goes through, the record it inserts, the redirect it answers with,
    and the error banner the next page shows. Every I/O outcome (the sniffed
    MIME type, the random bytes, whether the file move worked) is an input. */
module Kadai {
  import opened Wrappers
  import opened Text
  import opened Hex
  import opened Mime

  /** Longest accepted body, in code points after trimming. */
  const MaxBodyLength: nat := 2000
  /** Largest accepted upload in bytes: 5 MiB. */
  const MaxImageSize: nat := 5 * 1024 * 1024
  /** Length of the hex part of a generated file name. */
  const HexNameLength: nat := 32

  /** The 16 bytes `random_bytes(16)` returns. */
  type RandomBytes = s: seq<byte> | |s| == 16
    witness [0, 0, 0, 0, 0, 0, 0, 0, 0, 0, 0, 0, 0, 0, 0, 0]

  /** An `image` upload that reached the handler, together with what the
      handler's I/O calls report about it. */
  datatype Upload = Upload(
    clientName: string,           // `$_FILES['image']['name']`, never consulted
    clientType: string,           // `$_FILES['image']['type']`, never consulted
    size: nat,                    // `$_FILES['image']['size']`
    sniffedMime: Option<string>,  // what `detect_mime` reports
    random: RandomBytes,          // what `random_bytes(16)` returns
    moved: bool)                  // whether `move_uploaded_file` succeeded

  /** A row of `bbs_entries` as the handler inserts it (`id` and
      `created_at` are assigned by the database). */
  datatype Post = Post(body: string, imageFilename: Option<string>)

  /** The failure reasons, sent back as `?err=<code>`. */
  datatype ErrorCode = BodyError | SizeError | MimeError | MoveError

  function CodeName(c: ErrorCode): (name: string) {
    match c
    case BodyError => "body"
    case SizeError => "size"
    case MimeError => "mime"
    case MoveError => "move"
  }

  datatype Outcome = Rejected(code: ErrorCode) | Accepted(post: Post)

  /** The body check: non-empty after trimming and at most 2000 code points. */
  predicate BodyAcceptable(rawBody: string) {
    var body := Trim(rawBody);
    body != "" && |body| <= MaxBodyLength
  }

  /** PHP truthiness of a `?string`: `null`, `""` and `"0"` are false. */
  predicate Truthy(s: Option<string>) {
    s.Some? && s.value != "" && s.value != "0"
  }

  /** `$mime ? ext_from_mime($mime) : null` */
  function SniffedExtension(mime: Option<string>): (ext: Option<string>)
    ensures ext.Some? ==> mime.Some? && ext.value in Extensions
  {
    if Truthy(mime) then ExtFromMime(mime.value) else None
  }

  /** `sprintf('%s.%s', bin2hex($random), $ext)` */
  function ImageFilename(random: seq<byte>, ext: string): (f: string)
    ensures |f| == 2 * |random| + 1 + |ext|
  {
    Bin2Hex(random) + "." + ext
  }

  /** The shape of every generated file name: 32 lower-case hex digits, a dot,
      and one of the allowed extensions. */
  predicate IsImageFilename(f: string) {
    |f| > HexNameLength + 1 && IsHexString(f[..HexNameLength])
    && f[HexNameLength] == '.' && f[HexNameLength + 1..] in Extensions
  }

  /** What every stored post satisfies. */
  predicate WellFormedPost(p: Post) {
    && 1 <= |p.body| <= MaxBodyLength
    && IsTrimmed(p.body)
    && (p.imageFilename.Some? ==> IsImageFilename(p.imageFilename.value))
  }

  /** The decision the POST handler makes, check by check in the order the
      handler performs them; `Accepted(p)` means `p` is inserted. */
  function Submit(rawBody: string, upload: Option<Upload>): (o: Outcome) {
    var body := Trim(rawBody);
    if !BodyAcceptable(rawBody) then Rejected(BodyError)
    else if upload.None? then Accepted(Post(body, None))
    else
      var u := upload.value;
      if u.size > MaxImageSize then Rejected(SizeError)
      else match SniffedExtension(u.sniffedMime)
        case None => Rejected(MimeError)
        case Some(ext) =>
          if !u.moved then Rejected(MoveError)
          else Accepted(Post(body, Some(ImageFilename(u.random, ext))))
  }

  // ----- the body check -----

  /** The body is refused exactly when it is blank (only trim characters) or
      longer than 2000 code points once trimmed. */
  lemma BodyAcceptableIff(rawBody: string)
    ensures BodyAcceptable(rawBody) <==> !AllTrimChars(rawBody) && |Trim(rawBody)| <= MaxBodyLength
  {
    TrimEmptyIff(rawBody);
  }

  /** The body check comes first: a bad body gives `body` whatever the upload,
      and a good body never gives `body`. */
  lemma BodyCheckFirst(rawBody: string, upload: Option<Upload>)
    ensures Submit(rawBody, upload) == Rejected(BodyError) <==> !BodyAcceptable(rawBody)
  {
  }

  /** What is inserted is the trimmed body, and it has an image file name
      exactly when an upload was present. */
  lemma AcceptedPost(rawBody: string, upload: Option<Upload>)
    requires Submit(rawBody, upload).Accepted?
    ensures Submit(rawBody, upload).post.body == Trim(rawBody)
    ensures Submit(rawBody, upload).post.imageFilename.None? <==> upload.None?
  {
  }

  /** Without an upload, a good body is always accepted. */
  lemma NoUploadAccepted(rawBody: string)
    requires BodyAcceptable(rawBody)
    ensures Submit(rawBody, None) == Accepted(Post(Trim(rawBody), None))
  {
  }

  // ----- the image checks -----

  /** With a good body, `size` is the answer exactly when the declared size
      exceeds 5242880 bytes, whatever the file's type and whatever the move
      would do; a size of exactly 5242880 passes. */
  lemma SizeCheck(rawBody: string, u: Upload)
    requires BodyAcceptable(rawBody)
    ensures MaxImageSize == 5242880
    ensures Submit(rawBody, Some(u)) == Rejected(SizeError) <==> u.size > MaxImageSize
  {
  }

  /** PHP's truthiness test in front of `ext_from_mime` changes nothing: a
      missing type is refused and every present type goes through the table. */
  lemma SniffedExtensionIsLookup(mime: Option<string>)
    ensures SniffedExtension(mime) == if mime.None? then None else ExtFromMime(mime.value)
  {
    if mime.Some? && !Truthy(mime) {
      LowerIs(mime.value, mime.value);
    }
  }

  /** After the body and size checks pass, `mime` is the answer exactly when
      sniffing failed or found a type outside the allow-list. */
  lemma MimeCheck(rawBody: string, u: Upload)
    requires BodyAcceptable(rawBody) && u.size <= MaxImageSize
    ensures Submit(rawBody, Some(u)) == Rejected(MimeError)
        <==> u.sniffedMime.None? || ExtFromMime(u.sniffedMime.value).None?
  {
    SniffedExtensionIsLookup(u.sniffedMime);
  }

  /** After the type is accepted, `move` is the answer exactly when the move
      failed, and otherwise the post is inserted. */
  lemma MoveCheck(rawBody: string, u: Upload)
    requires BodyAcceptable(rawBody) && u.size <= MaxImageSize
    requires u.sniffedMime.Some? && ExtFromMime(u.sniffedMime.value).Some?
    ensures Submit(rawBody, Some(u)) == Rejected(MoveError) <==> !u.moved
    ensures u.moved ==> Submit(rawBody, Some(u)).Accepted?
  {
    SniffedExtensionIsLookup(u.sniffedMime);
  }

  /** The client-supplied name and content type never influence the outcome. */
  lemma ClientMetadataIgnored(rawBody: string, u: Upload, name: string, ctype: string)
    ensures Submit(rawBody, Some(u)) == Submit(rawBody, Some(u.(clientName := name, clientType := ctype)))
  {
  }

  // ----- the generated file name -----

  /** A generated name is the 32 hex digits of the random bytes, a dot and
      the extension, so it is 33 + |ext| characters long. */
  lemma ImageFilenameShape(random: RandomBytes, ext: string)
    ensures |ImageFilename(random, ext)| == 33 + |ext|
    ensures ImageFilename(random, ext)[..HexNameLength] == Bin2Hex(random)
    ensures IsHexString(ImageFilename(random, ext)[..HexNameLength])
    ensures ImageFilename(random, ext)[HexNameLength] == '.'
    ensures ImageFilename(random, ext)[HexNameLength + 1..] == ext
  {
    var f := ImageFilename(random, ext);
    assert f[..HexNameLength] == Bin2Hex(random);
    assert f[HexNameLength + 1..] == ext;
  }

  /** Two generated names are equal only when they come from the same random
      bytes and the same extension. */
  lemma ImageFilenameInjective(r1: RandomBytes, e1: string, r2: RandomBytes, e2: string)
    requires ImageFilename(r1, e1) == ImageFilename(r2, e2)
    ensures r1 == r2 && e1 == e2
  {
    ImageFilenameShape(r1, e1);
    ImageFilenameShape(r2, e2);
    Bin2HexInjective(r1, r2);
  }

  /** An accepted upload is stored under the name built from its random bytes
      and the extension of its sniffed type, and nothing else. */
  lemma AcceptedImageFilename(rawBody: string, u: Upload)
    requires Submit(rawBody, Some(u)).Accepted?
    ensures u.sniffedMime.Some? && ExtFromMime(u.sniffedMime.value).Some?
    ensures Submit(rawBody, Some(u)).post.imageFilename
         == Some(ImageFilename(u.random, ExtFromMime(u.sniffedMime.value).value))
  {
    SniffedExtensionIsLookup(u.sniffedMime);
  }

  /** Whatever is accepted satisfies the stored-post invariant: a trimmed body
      of 1 to 2000 code points and, if present, a well-shaped file name. */
  lemma AcceptedWellFormed(rawBody: string, upload: Option<Upload>)
    requires Submit(rawBody, upload).Accepted?
    ensures WellFormedPost(Submit(rawBody, upload).post)
  {
    var p := Submit(rawBody, upload).post;
    TrimEmptyIff(rawBody);
    if upload.Some? {
      var u := upload.value;
      var ext := SniffedExtension(u.sniffedMime).value;
      ImageFilenameShape(u.random, ext);
    }
  }

  // ----- example submissions -----

  /** 2001 letters are refused with `body`, whatever is attached. */
  lemma OverlongBodyRefused(upload: Option<Upload>)
    ensures Submit(seq(2001, _ => 'A'), upload) == Rejected(BodyError)
  {
    var s := seq(2001, _ => 'A');
    TrimOfTrimmed(s);
  }

  /** Surrounding whitespace is dropped before the body is stored. */
  lemma PaddedBodyStoredTrimmed()
    ensures Submit(" \thello\r\n", None) == Accepted(Post("hello", None))
  {
    var s := " \thello\r\n";
    var i := LeadingTrim(s);
    assert i == 2;
    assert s[2..] == "hello\r\n";
    assert TrailingTrim("hello\r\n") == 2;
  }

  /** A blank body is refused with `body`. */
  lemma BlankBodyRefused(upload: Option<Upload>)
    ensures Submit(" \n\t", upload) == Rejected(BodyError)
  {
    TrimEmptyIff(" \n\t");
  }

  /** A 6 MB upload is refused with `size`, even when it is a valid PNG. */
  lemma SixMegabyteUploadRefused(u: Upload)
    requires u.size == 6 * 1024 * 1024
    ensures Submit("hi", Some(u)) == Rejected(SizeError)
  {
    TrimOfTrimmed("hi");
  }

  /** A small PNG that is moved successfully is stored under a `.png` name. */
  lemma SmallPngAccepted(u: Upload)
    requires u.size == 10 * 1024 && u.sniffedMime == Some("image/png") && u.moved
    ensures Submit("hi", Some(u)) == Accepted(Post("hi", Some(ImageFilename(u.random, "png"))))
  {
    TrimOfTrimmed("hi");
    LowerIs("image/png", "image/png");
  }
}
