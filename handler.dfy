/**
 * The skeleton of `tiktok_handler`: which replies, edits, sends, deletions
 * and file removals one incoming message causes, with the downloader, the
 * file-size check and the upload as oracles.
 */
module Handler {
  import opened Wrappers
  import opened UrlMatcher
  import opened Config
  import opened Access

  /** An incoming message as the handler sees it; `text` is `event.message.message`, which may be `None`. */
  datatype Message = Message(chat: ChatDescriptor, isPrivate: bool, text: Option<string>)

  /**
   * What the download step did: the text of the exception it raised, if any,
   * and whether a file is at the path `tmp_mp4` names once it is over.
   */
  datatype Download = Download(error: Option<string>, fileLeft: bool)

  /** One effect of the handler, in the order it happens. */
  datatype Action =
    | ReplyProcessing(url: string)  // the progress reply quoting the link
    | EditDownloadFailed            // progress reply edited: the video could not be downloaded
    | EditTooBig                    // progress reply edited: the file is over MAX_MB
    | EditSending                   // progress reply edited: the video is being sent
    | SendVideo                     // the video file is posted with its size as caption
    | DeleteProgress                // the progress reply is deleted
    | EditError(message: string)    // progress reply edited with the exception's text
    | RemoveTemp                    // `tmp_mp4.unlink(missing_ok=True)`

  /** `event.message.message or ""`. */
  function MessageText(m: Message): (t: string) {
    if m.text.Some? then m.text.value else ""
  }

  /** The handler acts on the message: the chat is allowed and the text holds a link. */
  predicate Handled(cfg: Settings, m: Message) {
    ChatIsAllowed(cfg, m.isPrivate, m.chat) && FindUrl(MessageText(m)).Some?
  }

  /** The link the handler works on. */
  function Url(cfg: Settings, m: Message): (u: string)
    requires Handled(cfg, m)
  {
    FindUrl(MessageText(m)).value
  }

  /** The outcome of the download-and-send part for one link, as a function of the oracles. */
  predicate Succeeds(dl: Download, tooBig: bool, sendError: Option<string>) {
    dl.error.None? && dl.fileLeft && !tooBig && sendError.None?
  }

  /**
   * The actions of the `try`/`except`/`finally` block on each of its paths:
   * a raised download, no file left, a file over the size limit, a raised
   * upload, and success.
   */
  function BlockTrace(dl: Download, tooBig: bool, sendError: Option<string>): (t: seq<Action>) {
    if dl.error.Some? then [EditError(dl.error.value), RemoveTemp]
    else if !dl.fileLeft then [EditDownloadFailed, RemoveTemp]
    else if tooBig then [EditTooBig, RemoveTemp, RemoveTemp]
    else if sendError.Some? then [EditSending, EditError(sendError.value), RemoveTemp]
    else [EditSending, SendVideo, DeleteProgress, RemoveTemp]
  }

  /**
   * The `try`/`except`/`finally` block of `tiktok_handler`, run after the
   * progress reply. `tooBig` stands for `size_mb > MAX_MB` and
   * `sendError` for the exception `event.respond` raises, if any.
   * `tempPresent` is whether a file is at the path `tmp_mp4` names.
   */
  method DownloadAndSend(dl: Download, tooBig: bool, sendError: Option<string>)
    returns (actions: seq<Action>, tempPresent: bool)
    // the temporary file is gone when the block is left, on every path, and its removal comes last
    ensures !tempPresent
    ensures |actions| >= 2 && actions[|actions| - 1] == RemoveTemp
    // the video is sent exactly when every step succeeded
    ensures SendVideo in actions <==> Succeeds(dl, tooBig, sendError)
    // the download raised: the error is shown, then the file is removed
    ensures dl.error.Some? ==> actions == [EditError(dl.error.value), RemoveTemp]
    // no file was produced: the failure edit, no send
    ensures dl.error.None? && !dl.fileLeft ==> actions == [EditDownloadFailed, RemoveTemp]
    // the file is too big: the size edit, the file is deleted, nothing is sent
    ensures dl.error.None? && dl.fileLeft && tooBig ==> actions == [EditTooBig, RemoveTemp, RemoveTemp]
    // the upload raised: the error replaces the sending notice
    ensures dl.error.None? && dl.fileLeft && !tooBig && sendError.Some? ==>
      actions == [EditSending, EditError(sendError.value), RemoveTemp]
    // success: the video is sent, then the progress reply is deleted, then the file removed
    ensures Succeeds(dl, tooBig, sendError) ==> actions == [EditSending, SendVideo, DeleteProgress, RemoveTemp]
    ensures actions == BlockTrace(dl, tooBig, sendError)
  {
    actions := [];
    // try:
    var raised: Option<string> := None;
    tempPresent := dl.fileLeft;
    if dl.error.Some? {
      raised := dl.error;
    } else if !tempPresent {
      actions := actions + [EditDownloadFailed];
    } else if tooBig {
      actions := actions + [EditTooBig];
      actions := actions + [RemoveTemp];
      tempPresent := false;
    } else {
      actions := actions + [EditSending];
      if sendError.Some? {
        raised := sendError;
      } else {
        actions := actions + [SendVideo, DeleteProgress];
      }
    }
    // except Exception as e:
    if raised.Some? {
      actions := actions + [EditError(raised.value)];
    }
    // finally:
    actions := actions + [RemoveTemp];
    tempPresent := false;
  }

  /**
   * `tiktok_handler`: nothing happens for a refused chat or a message without
   * a link; otherwise the progress reply quoting the extracted link comes
   * first and the download-and-send block follows. `replyFails` stands for
   * `event.reply` raising: the exception leaves the handler before the
   * `try`, so nothing is downloaded, sent or left on disk.
   */
  method HandleTikTok(cfg: Settings, msg: Message, replyFails: bool, dl: Download, tooBig: bool, sendError: Option<string>)
    returns (actions: seq<Action>, tempPresent: bool)
    ensures !tempPresent
    ensures !Handled(cfg, msg) ==> actions == []
    ensures Handled(cfg, msg) && replyFails ==> actions == []
    ensures Handled(cfg, msg) && !replyFails ==>
      actions == [ReplyProcessing(Url(cfg, msg))] + BlockTrace(dl, tooBig, sendError)
    ensures Handled(cfg, msg) && !replyFails ==>
      |actions| >= 3 && actions[0] == ReplyProcessing(Url(cfg, msg)) && actions[|actions| - 1] == RemoveTemp
    ensures SendVideo in actions <==> Handled(cfg, msg) && !replyFails && Succeeds(dl, tooBig, sendError)
    ensures Handled(cfg, msg) && !replyFails && Succeeds(dl, tooBig, sendError) ==>
      actions == [ReplyProcessing(Url(cfg, msg)), EditSending, SendVideo, DeleteProgress, RemoveTemp]
    ensures !(Handled(cfg, msg) && !replyFails && Succeeds(dl, tooBig, sendError)) ==> DeleteProgress !in actions
  {
    actions, tempPresent := [], false;
    if !ChatIsAllowed(cfg, msg.isPrivate, msg.chat) {
      return;
    }
    var found := FindUrl(MessageText(msg));
    if found.None? {
      return;
    }
    if replyFails {
      return;
    }
    var rest;
    rest, tempPresent := DownloadAndSend(dl, tooBig, sendError);
    actions := [ReplyProcessing(found.value)] + rest;
  }
}
