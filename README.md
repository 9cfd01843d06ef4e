# Bulletin board submission pipeline, in Dafny

This project models the one piece of logic in `public/kadai.php`, a
single-page bulletin board. A visitor posts a text body and, optionally, an
image. Before anything is stored, the script checks the post in a fixed order:

1. the body, trimmed, must be 1 to 2000 code points long (error `body`);
2. an uploaded file may be at most 5 MiB = 5242880 bytes (error `size`);
3. the file's sniffed MIME type must be one of `image/jpeg`, `image/png`,
   `image/gif`, `image/webp`, compared without regard to ASCII case (error `mime`);
4. the file is moved into the upload directory under
   `bin2hex(random_bytes(16)) . "." . ext` (error `move`).

The first failure redirects to `./kadai.php?err=<code>`. Nothing is stored
and no further check runs. If every check passes, one row `(body, image_filename)`
is inserted and the script redirects to `./kadai.php`. The page then shows a
banner for `err`: a fixed message for each of the four codes, a generic
message for any other non-empty value, and no banner when `err` is missing or
empty.

Files:

- `wrappers.dfy` holds `Option`, for PHP's `?T`.
- `text.dfy` models PHP `trim` (default character list) and `strtolower`.
- `hex.dfy` models PHP `bin2hex`, with a decoder used to prove it loses nothing.
- `mime.dfy` models `ext_from_mime`.
- `kadai.dfy` holds `Submit`, the pure decision the POST handler makes, with
  the upload, the sniffed type, the random bytes and the move result as
  inputs. It also holds the lemmas about each check and about the generated
  file name.
- `banner.dfy` models the `err` → message table.
- `board.dfy` holds `Board`: the table (`entries`) and the upload directory
  (`blobs`), and `Board.Handle`, the handler as straight-line code with early
  returns. `Handle` is proved to agree with `Submit`. It also keeps the
  stored-post invariant: every row is well formed and names only files
  present in the upload directory. A row that names a file is appended in
  the same call that adds the file to `blobs`.

Inputs that stand for I/O:

- `detect_mime` becomes `Upload.sniffedMime`.
- `random_bytes(16)` becomes `Upload.random`.
- `move_uploaded_file` becomes `Upload.moved`.
- "an upload is present" (`isset($_FILES['image']) && is_uploaded_file(...)`) becomes `Option<Upload>`.
- The request method, `$_POST['body']` and `$_GET['err']` become the fields of `Request`.

## Model

| member | source | states |
|---|---|---|
| `Text.LeadingTrim` | public/kadai.php:51 | the count of leading characters `trim` removes: all of them are in PHP's default list, and the next character is not |
| `Text.TrailingTrim` | public/kadai.php:51 | the same count at the end of the string |
| `Text.Trim` | public/kadai.php:51 | `trim` returns an infix of its input; everything cut off on either side is a trim character; the result starts and ends with non-trim characters |
| `Text.TrimEmptyIff` | public/kadai.php:54 | `trim($body) === ''` holds exactly when the body consists only of space, tab, LF, CR, NUL and vertical tab |
| `Text.TrimIdempotent` | public/kadai.php:51 | trimming a trimmed body changes nothing |
| `Text.TrimOfTrimmed` | public/kadai.php:51 | a string without trim characters at its ends is returned unchanged |
| `Text.Lower` | public/kadai.php:33 | `strtolower` keeps the length and folds each character on its own, `A`-`Z` only |
| `Text.LowerIdempotent` | public/kadai.php:33 | lower-casing twice is the same as lower-casing once |
| `Hex.Bin2Hex` | public/kadai.php:82 | `bin2hex` gives two characters per byte, all from `[0-9a-f]` |
| `Hex.Bin2HexAt` | public/kadai.php:82 | byte k is written at positions 2k and 2k+1, high nibble first |
| `Hex.HexDecodeBin2Hex` | public/kadai.php:82 | decoding the hex text gives back exactly the bytes that were encoded |
| `Hex.Bin2HexInjective` | public/kadai.php:82 | different byte strings never have the same hex text |
| `Mime.ExtFromMime` | public/kadai.php:26-35 | any value `ext_from_mime` returns is one of `jpg`, `png`, `gif`, `webp` |
| `Mime.ExtFromMimeTable` | public/kadai.php:27-34 | each of the four lower-cased types gives its extension, in both directions; every other type gives `null` |
| `Mime.ExtFromMimeCaseInsensitive` | public/kadai.php:33-34 | a type and its lower-case form give the same answer |
| `Mime.ExtFromMimeUpperCase` | public/kadai.php:33-34 | `IMAGE/PNG` gives `png` and `Image/JPEG` gives `jpg` |
| `Mime.ExtFromMimeRejectsJpg` | public/kadai.php:27-34 | `image/jpg` is not on the list |
| `Mime.ExtFromMimeRejectsHtml` | public/kadai.php:27-34 | `text/html` is not on the list |
| `Kadai.Submit` | public/kadai.php:50-99 | no contract of its own; its meaning is stated by BodyCheckFirst, SizeCheck, MimeCheck, MoveCheck, AcceptedPost, AcceptedImageFilename and AcceptedWellFormed, and `Board.Handle` is proved to agree with it |
| `Kadai.SniffedExtension` | public/kadai.php:74 | an extension is found only for a sniffed type, and it is one of the four allowed ones; SniffedExtensionIsLookup shows the truthiness test alone changes nothing |
| `Kadai.ImageFilename` | public/kadai.php:82 | the name is twice as long as the random bytes, plus the dot and the extension; ImageFilenameShape and ImageFilenameInjective give its exact layout |
| `Kadai.CodeName` | public/kadai.php:56-87 | no contract of its own; the four `err` values `body`, `size`, `mime`, `move` of the redirects. BannerForErrorCode shows each one reaches its own message |
| `Banner.BannerMessage` | public/kadai.php:194-203 | no contract of its own; BannerForErrorCode, BannerDistinguishesCodes, BannerFallback and NoBannerWhenEmpty state its meaning |
| `Handler.ErrorLocation` | public/kadai.php:56-87 | no contract of its own; the `Location:` target `./kadai.php?err=<code>` of a failure. RedirectShowsItsBanner shows it leads to that failure's banner |
| `Handler.SubmissionResponse` | public/kadai.php:55-104 | no contract of its own; the redirect after a submission, to `./kadai.php` on success and to the failure's `?err=` address otherwise. `Board.Handle` answers with it, and RedirectShowsItsBanner states what the next page shows |
| `Handler.ErrParam` | public/kadai.php:194 | no contract of its own; `$_GET['err']` as read from the handler's redirect targets. RedirectShowsItsBanner uses it |
| `Kadai.BodyAcceptable` | public/kadai.php:54 | no contract of its own; the negation of the body test. BodyAcceptableIff and BodyCheckFirst state its meaning |
| `Kadai.Truthy` | public/kadai.php:74 | no contract of its own; PHP truthiness of the sniffed type in `$mime ? … : null`. SniffedExtensionIsLookup shows it changes no outcome |
| `Handler.IsSubmission` | public/kadai.php:50 | no contract of its own; the condition for taking the POST branch. `Board.Handle` states what happens on either side of it |
| `Banner.IsEmpty` | public/kadai.php:194 | no contract of its own; PHP `empty($_GET['err'])`. NoBannerWhenEmpty states that no banner appears exactly then |
| `Banner.MessageFor` | public/kadai.php:198-201 | no contract of its own; the message for each error code. BannerForErrorCode and BannerDistinguishesCodes show each code's banner is its own message |
| `Kadai.BodyAcceptableIff` | public/kadai.php:51-54 | the body passes exactly when it is not blank and its trimmed form has at most 2000 code points |
| `Kadai.BodyCheckFirst` | public/kadai.php:51-58 | the result is `body` exactly when the body check fails, whatever the upload; so the body check wins over size, mime and move |
| `Kadai.AcceptedPost` | public/kadai.php:60-63 | an inserted post carries the trimmed body, and has an image file name exactly when an upload was present |
| `Kadai.NoUploadAccepted` | public/kadai.php:60-63 | with no upload, a good body is always inserted, with a null file name |
| `Kadai.SizeCheck` | public/kadai.php:65-70 | with a good body, the result is `size` exactly when the declared size exceeds 5242880, whatever the type or the move result |
| `Kadai.SniffedExtensionIsLookup` | public/kadai.php:74 | the truthiness test `$mime ? … : null` only turns a missing type into `null` |
| `Kadai.MimeCheck` | public/kadai.php:73-79 | once body and size pass, the result is `mime` exactly when sniffing failed or found a type outside the list |
| `Kadai.MoveCheck` | public/kadai.php:85-89 | once the type is accepted, the result is `move` exactly when the move failed; otherwise the post is inserted |
| `Kadai.ClientMetadataIgnored` | public/kadai.php:72-82 | the client's file name and content type never change the outcome |
| `Kadai.ImageFilenameShape` | public/kadai.php:82 | a generated name is 32 hex digits of the random bytes, `.`, and the extension: 33 + \|ext\| characters |
| `Kadai.ImageFilenameInjective` | public/kadai.php:82 | two generated names are equal only for equal random bytes and equal extensions |
| `Kadai.AcceptedImageFilename` | public/kadai.php:73-82 | an accepted upload is stored under the name built from its own random bytes and its sniffed type's extension |
| `Kadai.AcceptedWellFormed` | public/kadai.php:51-99 | an inserted post has a trimmed body of 1 to 2000 code points and, if present, a file name of the generated shape |
| `Kadai.OverlongBodyRefused` | public/kadai.php:54-57 | 2001 letters give `body` whatever is attached |
| `Kadai.PaddedBodyStoredTrimmed` | public/kadai.php:51 | `" \thello\r\n"` is stored as `hello` |
| `Kadai.BlankBodyRefused` | public/kadai.php:54-57 | a body of whitespace only gives `body` |
| `Kadai.SixMegabyteUploadRefused` | public/kadai.php:65-70 | a 6 MiB upload gives `size` whatever its type |
| `Kadai.SmallPngAccepted` | public/kadai.php:73-99 | a 10 KiB PNG that moves successfully is inserted with a `.png` name |
| `Banner.BannerForErrorCode` | public/kadai.php:197-203 | each of `body`, `size`, `mime`, `move` shows its own fixed message, never the fallback |
| `Banner.BannerDistinguishesCodes` | public/kadai.php:197-203 | different codes show different messages |
| `Banner.BannerFallback` | public/kadai.php:203 | any other non-empty value shows the single generic message |
| `Banner.NoBannerWhenEmpty` | public/kadai.php:194 | no banner appears exactly when `err` is missing, `""` or `"0"` (PHP `empty`) |
| `Handler.Board.constructor` | public/kadai.php:94 | a new board has no rows and no files |
| `Handler.Board.Handle` | public/kadai.php:50-105 | a submission returns the redirect that `Submit` decides. It appends exactly that post when it is accepted and leaves the table unchanged otherwise. It adds a file only when a row names it. Every row stays well formed and names only files that exist. Any other request renders the page with its banner and changes nothing |
| `Handler.RedirectShowsItsBanner` | public/kadai.php:55-104 | following a failed submission's redirect shows that failure's own message; a successful one shows no banner |

## Left out

- Database access is left out: the PDO connection, the prepared `INSERT` and the `SELECT … ORDER BY created_at DESC` listing. The table is a sequence that the handler appends to; `id`, `created_at` and listing order belong to the database.
- Exceptions from the database are not modelled. They propagate uncaught and would end the request after the file was moved.
- `random_bytes` throws when the system has no randomness source. That ends the request before the move, with nothing moved or inserted. The model always receives 16 bytes, so it does not cover that path.
- Response headers, `mkdir` of the upload directory and `@chmod` are left out. They do not affect any decision.
- `is_uploaded_file` and `move_uploaded_file` are filesystem calls: their results are inputs. An upload that PHP itself rejected (for example one over `upload_max_filesize`) has no valid temporary file, so the script treats it as no upload. The model's `None` covers that case.
- `detect_mime` (`finfo`, `mime_content_type`) is magic-number sniffing by foreign code; its result is an input.
- `random_bytes` is cryptographic randomness; its 16 bytes are an input. Only injectivity of the naming is proved, not how unlikely collisions are. `Board.Handle` treats the file a move writes as one more name in `blobs`; overwriting an existing file of the same name is not distinguished.
- The HTML template, `htmlspecialchars`, `nl2br`, `rawurlencode` and the client-side 5 MB warning are presentation only. The page is modelled as its banner text, without the listing.
- Bytes versus code points: the body is a sequence of Unicode code points, so `mb_strlen` is its length. Invalid UTF-8 input is not modelled.
- `trim` strips only PHP's default list (space, `\t`, `\n`, `\r`, `\0`, `\x0B`). Other Unicode whitespace, such as the ideographic space U+3000, is kept and counts towards the body, as in the script.
- `strtolower` is modelled as ASCII-only folding, which is PHP 8.2's behaviour. Older PHP versions folded according to the locale.
- `$_POST['body']` or `$_GET['err']` sent as an array, which makes `trim` or the map lookup fail at run time, is not modelled.
- `Handler.ErrParam` reads `err` only from the two redirect targets the handler produces. It is not a general query-string parser.
