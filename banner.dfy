/** The error banner at the top of the page: the message chosen for the
    `err` query parameter that a failed submission redirects with. */
module Banner {
  import opened Wrappers
  import opened Kadai

  const BodyMessage: string := "本文は1〜2000文字で入力してください。"
  const SizeMessage: string := "画像は5MB以下にしてください。"
  const MimeMessage: string := "画像は jpg / png / gif / webp のみ対応です。"
  const MoveMessage: string := "画像の保存に失敗しました。"
  const FallbackMessage: string := "エラーが発生しました。"

  const Messages: map<string, string> := map[
    "body" := BodyMessage,
    "size" := SizeMessage,
    "mime" := MimeMessage,
    "move" := MoveMessage
  ]

  /** PHP `empty()` on a query value: absent, `""` and `"0"` are empty. */
  predicate IsEmpty(err: Option<string>) {
    err.None? || err.value == "" || err.value == "0"
  }

  /** The banner text for `$_GET['err']`, or `None` when no banner is shown. */
  function BannerMessage(err: Option<string>): (msg: Option<string>) {
    if IsEmpty(err) then None
    else if err.value in Messages then Some(Messages[err.value])
    else Some(FallbackMessage)
  }

  /** The message each error code of the handler gets. */
  function MessageFor(c: ErrorCode): (msg: string) {
    match c
    case BodyError => BodyMessage
    case SizeError => SizeMessage
    case MimeError => MimeMessage
    case MoveError => MoveMessage
  }

  /** Every code the handler redirects with shows its own fixed message,
      never the fallback. */
  lemma BannerForErrorCode(c: ErrorCode)
    ensures BannerMessage(Some(CodeName(c))) == Some(MessageFor(c))
    ensures MessageFor(c) != FallbackMessage
  {
  }

  /** Different codes show different messages, so the banner tells the
      submitter which check failed. */
  lemma BannerDistinguishesCodes(c1: ErrorCode, c2: ErrorCode)
    requires BannerMessage(Some(CodeName(c1))) == BannerMessage(Some(CodeName(c2)))
    ensures c1 == c2
  {
    BannerForErrorCode(c1);
    BannerForErrorCode(c2);
  }

  /** Any other non-empty value shows the one generic message. */
  lemma BannerFallback(err: string)
    requires err != "" && err != "0"
    requires err != "body" && err != "size" && err != "mime" && err != "move"
    ensures BannerMessage(Some(err)) == Some(FallbackMessage)
  {
  }

  /** No banner appears when `err` is missing or empty (which includes `"0"`). */
  lemma NoBannerWhenEmpty(err: Option<string>)
    ensures BannerMessage(err).None? <==> IsEmpty(err)
  {
  }
}
