/** The state the handler of public/kadai.php changes: the `bbs_entries`
    table and the upload directory, and the request handler itself. */
module Handler {
  import opened Wrappers
  import opened Text
  import opened Mime
  import opened Kadai
  import opened Banner

  /** The script's own address, the target of every redirect. */
  const SelfUrl: string := "./kadai.php"

  function ErrorLocation(c: ErrorCode): (location: string) {
    SelfUrl + "?err=" + CodeName(c)
  }

  /** One HTTP request as the script sees it: the method, `$_POST['body']`
      if set, the upload if `is_uploaded_file` accepted one, and `$_GET['err']`. */
  datatype Request = Request(
    httpMethod: string,
    body: Option<string>,
    upload: Option<Upload>,
    err: Option<string>)

  /** A 302 redirect, or the rendered page with its banner (the listing
      itself belongs to the template). */
  datatype Response = Redirect(location: string) | Page(banner: Option<string>)

  /** Whether the request takes the POST branch. */
  predicate IsSubmission(req: Request) {
    req.httpMethod == "POST" && req.body.Some?
  }

  /** The redirect a submission answers with. */
  function SubmissionResponse(o: Outcome): (resp: Response) {
    if o.Accepted? then Redirect(SelfUrl) else Redirect(ErrorLocation(o.code))
  }

  /** The file an accepted submission wrote into the upload directory. */
  function WrittenBlobs(o: Outcome): (written: set<string>) {
    if o.Accepted? && o.post.imageFilename.Some? then {o.post.imageFilename.value} else {}
  }

  class Board {
    /** The rows of `bbs_entries`, in insertion order. */
    var entries: seq<Post>
    /** The file names present in the upload directory. */
    var blobs: set<string>

    /** Every stored post is well formed and every image it names exists:
        a row never refers to a file that was not written. */
    ghost predicate Valid()
      reads this
    {
      forall p | p in entries ::
        WellFormedPost(p) && (p.imageFilename.Some? ==> p.imageFilename.value in blobs)
    }

    constructor ()
      ensures Valid() && entries == [] && blobs == {}
    {
      entries := [];
      blobs := {};
    }

    /** Handles one request. A submission is checked in the order body,
        size, type, move; the first failure redirects with its code and
        changes nothing further; otherwise exactly one row is appended. */
    method Handle(req: Request) returns (resp: Response)
      requires Valid()
      modifies this
      ensures Valid()
      ensures !IsSubmission(req) ==>
        resp == Page(BannerMessage(req.err)) && entries == old(entries) && blobs == old(blobs)
      ensures IsSubmission(req) ==>
        var o := Submit(req.body.value, req.upload);
        && resp == SubmissionResponse(o)
        && entries == (if o.Accepted? then old(entries) + [o.post] else old(entries))
        && blobs == old(blobs) + WrittenBlobs(o)
    {
      if !(req.httpMethod == "POST" && req.body.Some?) {
        return Page(BannerMessage(req.err));
      }
      var body := Trim(req.body.value);
      if body == "" || |body| > MaxBodyLength {
        return Redirect(ErrorLocation(BodyError));
      }
      var imageFilename: Option<string> := None;
      if req.upload.Some? {
        var u := req.upload.value;
        if u.size > MaxImageSize {
          return Redirect(ErrorLocation(SizeError));
        }
        var ext := if Truthy(u.sniffedMime) then ExtFromMime(u.sniffedMime.value) else None;
        if ext.None? {
          return Redirect(ErrorLocation(MimeError));
        }
        var name := ImageFilename(u.random, ext.value);
        imageFilename := Some(name);
        if !u.moved {
          return Redirect(ErrorLocation(MoveError));
        }
        blobs := blobs + {name};
      }
      var post := Post(body, imageFilename);
      AcceptedWellFormed(req.body.value, req.upload);
      entries := entries + [post];
      return Redirect(SelfUrl);
    }
  }

  /** The `err` parameter PHP reads from the redirect target, for the two
      kinds of address the handler redirects to. */
  function ErrParam(location: string): (err: Option<string>) {
    var prefix := SelfUrl + "?err=";
    if |prefix| <= |location| && location[..|prefix|] == prefix then Some(location[|prefix|..])
    else None
  }

  /** Following the redirect of a submission shows the banner of its own
      failure, and no banner after a success. */
  lemma RedirectShowsItsBanner(o: Outcome)
    ensures SubmissionResponse(o).Redirect?
    ensures BannerMessage(ErrParam(SubmissionResponse(o).location))
         == if o.Rejected? then Some(MessageFor(o.code)) else None
  {
    var prefix := SelfUrl + "?err=";
    if o.Rejected? {
      var loc := ErrorLocation(o.code);
      assert loc[..|prefix|] == prefix;
      assert loc[|prefix|..] == CodeName(o.code);
      BannerForErrorCode(o.code);
    }
  }
}
