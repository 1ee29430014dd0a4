/**
 * The page controller of app/static/js/videoPreview.js: the uploaded file, the
 * upload cell (prompt or player), the download and generate buttons, and the
 * three handlers that change them (file chosen, preview closed, form submitted).
 */
module VideoPreview {
  import opened Wrappers
  import opened Dom
  import opened Alerts
  import opened FormPayload

  const Mp4Type := "video/mp4"
  const DisabledClass := "btn-disabled"
  const GenerateLabel := "Generate Subtitles"
  const DownloadLabel := "Download Subtitled Video"
  const NotMp4Message := "Please upload an MP4 file."
  const NoVideoMessage := "Please upload a video first."
  const UnexpectedPrefix := "Unexpected error: "

  /** What #upload-cell shows: its original markup, or the player for an object URL. */
  datatype UploadCell = UploadPrompt | Player(videoUrl: string)

  /** The parsed JSON of the /generate response; `status` is absent when the server sends none. */
  datatype ServerReply = ServerReply(status: Option<string>, message: string, downloadUrl: string)

  /** How the request ended: a reply, or an exception from `fetch` or `response.json()`. */
  datatype FetchOutcome = Replied(reply: ServerReply) | Threw(errorMessage: string)

  class Page {
    var uploadedFile: Option<File>
    var fileInput: Option<File>       // the file input's selection
    var uploadCell: UploadCell
    var downloadClasses: set<string>  // #download-btn class list
    var downloadLabel: string
    var downloadTarget: Option<string> // where #download-btn's onclick navigates
    var generateDisabled: bool
    var generateLabel: string
    var body: seq<Element>            // children of document.body
    var requests: seq<Submission>     // what each POST to /generate was built from, oldest first
    ghost var generatedFor: Option<File> // the file of the last successful generation

    ghost predicate DownloadEnabled()
      reads this
    {
      DisabledClass !in downloadClasses
    }

    /** The download button is enabled only for the held file, after a successful reply for it. */
    ghost predicate DownloadGuarded()
      reads this
    {
      DownloadEnabled() ==> uploadedFile.Some? && generatedFor == uploadedFile && downloadTarget.Some?
    }

    /**
     * Between events: the generate button is usable, the player is shown
     * exactly while a file is held, a held file is an MP4, and the download
     * is guarded.
     */
    ghost predicate Valid()
      reads this
    {
      !generateDisabled &&
      (uploadCell.Player? <==> uploadedFile.Some?) &&
      (uploadedFile.Some? ==> uploadedFile.value.mimeType == Mp4Type) &&
      DownloadGuarded()
    }

    /** The page after DOMContentLoaded; the markup's download button starts disabled. */
    constructor (downloadClasses0: set<string>, downloadLabel0: string, generateLabel0: string, body0: seq<Element>)
      requires DisabledClass in downloadClasses0
      ensures Valid()
      ensures uploadedFile == None && fileInput == None && uploadCell == UploadPrompt
      ensures downloadClasses == downloadClasses0 && downloadLabel == downloadLabel0 && downloadTarget == None
      ensures generateLabel == generateLabel0 && body == body0 && requests == []
    {
      uploadedFile, fileInput, uploadCell := None, None, UploadPrompt;
      downloadClasses, downloadLabel, downloadTarget := downloadClasses0, downloadLabel0, None;
      generateDisabled, generateLabel := false, generateLabel0;
      body, requests := body0, [];
      generatedFor := None;
    }

    /** `showAlert(message, kind)`. */
    method ShowAlert(message: string, kind: string)
      modifies this`body
      ensures body == WithBanner(old(body), message, kind)
    {
      body := WithBanner(body, message, kind);
    }

    /** The file input's change handler; `objectUrl` is what `URL.createObjectURL` returns. */
    method OnFileChange(selection: Option<File>, objectUrl: string)
      requires Valid()
      modifies this
      ensures Valid()
      ensures fileInput == selection
      // no file: nothing else changes
      ensures selection == None ==>
        uploadedFile == old(uploadedFile) && uploadCell == old(uploadCell) &&
        downloadClasses == old(downloadClasses) && body == old(body)
      // not an MP4: an error banner, and the previous upload is kept
      ensures selection.Some? && selection.value.mimeType != Mp4Type ==>
        body == WithBanner(old(body), NotMp4Message, "error") &&
        uploadedFile == old(uploadedFile) && uploadCell == old(uploadCell) &&
        downloadClasses == old(downloadClasses)
      // an MP4: it is held and played, and the download is disabled again
      ensures selection.Some? && selection.value.mimeType == Mp4Type ==>
        uploadedFile == selection && uploadCell == Player(objectUrl) &&
        downloadClasses == old(downloadClasses) + {DisabledClass} && body == old(body)
      ensures downloadLabel == old(downloadLabel) && downloadTarget == old(downloadTarget)
      ensures generateDisabled == old(generateDisabled) && generateLabel == old(generateLabel)
      ensures requests == old(requests) && generatedFor == old(generatedFor)
    {
      fileInput := selection;
      if selection == None {
        return;
      }
      var file := selection.value;
      if file.mimeType != Mp4Type {
        ShowAlert(NotMp4Message, "error");
        return;
      }
      uploadedFile := selection;
      uploadCell := Player(objectUrl);
      downloadClasses := downloadClasses + {DisabledClass};
    }

    /** The close button's click handler; the button exists only while the player is shown. */
    method OnClosePreview()
      requires Valid() && uploadCell.Player?
      modifies this
      ensures Valid()
      ensures uploadCell == UploadPrompt && uploadedFile == None && fileInput == None
      ensures downloadClasses == old(downloadClasses) + {DisabledClass}
      ensures downloadLabel == old(downloadLabel) && downloadTarget == old(downloadTarget)
      ensures generateDisabled == old(generateDisabled) && generateLabel == old(generateLabel)
      ensures body == old(body) && requests == old(requests) && generatedFor == old(generatedFor)
    {
      uploadCell := UploadPrompt;
      uploadedFile := None;
      downloadClasses := downloadClasses + {DisabledClass};
      fileInput := None;
    }

    /**
     * The form's submit handler, from the click to the `finally` block.
     * `answer` is what `prompt` returns (asked only for a custom background)
     * and `outcome` how the request to /generate ended.
     */
    method OnSubmit(controls: Controls, answer: Option<string>, outcome: FetchOutcome)
      requires Valid()
      modifies this
      ensures Valid()
      ensures uploadedFile == old(uploadedFile) && fileInput == old(fileInput) && uploadCell == old(uploadCell)
      ensures generateLabel == (if old(uploadedFile) == None then old(generateLabel) else GenerateLabel)
      // no video: an error banner and no request
      ensures old(uploadedFile) == None ==>
        body == WithBanner(old(body), NoVideoMessage, "error") && requests == old(requests) &&
        downloadClasses == old(downloadClasses) && downloadLabel == old(downloadLabel) &&
        downloadTarget == old(downloadTarget) && generatedFor == old(generatedFor)
      // otherwise exactly one request, with the file and the style options
      ensures old(uploadedFile).Some? ==>
        requests == old(requests) + [Submission(old(uploadedFile).value, controls, answer)]
      // an exception or an error status: an error banner, the download button as it was
      ensures old(uploadedFile).Some? && !Succeeded(outcome) ==>
        body == WithBanner(old(body), FailureMessage(outcome), "error") &&
        downloadClasses == old(downloadClasses) && downloadLabel == old(downloadLabel) &&
        downloadTarget == old(downloadTarget) && generatedFor == old(generatedFor)
      // success: a success banner and the download enabled for this file and URL
      ensures old(uploadedFile).Some? && Succeeded(outcome) ==>
        body == WithBanner(old(body), outcome.reply.message, "success") &&
        downloadClasses == old(downloadClasses) - {DisabledClass} &&
        downloadLabel == DownloadLabel && downloadTarget == Some(outcome.reply.downloadUrl) &&
        generatedFor == old(uploadedFile)
    {
      if uploadedFile == None {
        ShowAlert(NoVideoMessage, "error");
        return;
      }
      Post(controls, answer);
      Settle(outcome);
      generateDisabled := false;
      generateLabel := GenerateLabel;
    }

    /** Lines 133-166: the generate button disabled, the options read and the form data posted. */
    method Post(controls: Controls, answer: Option<string>)
      requires uploadedFile.Some?
      modifies this`generateDisabled, this`generateLabel, this`requests
      ensures generateDisabled && generateLabel == "Generating..."
      ensures requests == old(requests) + [Submission(uploadedFile.value, controls, answer)]
    {
      generateDisabled := true;
      generateLabel := "Generating...";
      requests := requests + [Submission(uploadedFile.value, controls, answer)];
    }

    /** The `try` and `catch` blocks: the banner, and on success the download button. */
    method Settle(outcome: FetchOutcome)
      requires uploadedFile.Some? && DownloadGuarded()
      modifies this`body, this`downloadClasses, this`downloadLabel, this`downloadTarget, this`generatedFor
      ensures DownloadGuarded()
      ensures !Succeeded(outcome) ==>
        body == WithBanner(old(body), FailureMessage(outcome), "error") &&
        downloadClasses == old(downloadClasses) && downloadLabel == old(downloadLabel) &&
        downloadTarget == old(downloadTarget) && generatedFor == old(generatedFor)
      ensures Succeeded(outcome) ==>
        body == WithBanner(old(body), outcome.reply.message, "success") &&
        downloadClasses == old(downloadClasses) - {DisabledClass} &&
        downloadLabel == DownloadLabel && downloadTarget == Some(outcome.reply.downloadUrl) &&
        generatedFor == uploadedFile
    {
      match outcome
      case Threw(m) =>
        ShowAlert(UnexpectedPrefix + m, "error");
      case Replied(reply) =>
        if reply.status == Some("error") {
          ShowAlert(reply.message, "error");
        } else {
          ShowAlert(reply.message, "success");
          downloadClasses := downloadClasses - {DisabledClass};
          downloadLabel := DownloadLabel;
          downloadTarget := Some(reply.downloadUrl);
          generatedFor := uploadedFile;
        }
    }
  }

  /** A reply whose status is not "error" counts as success, a missing status included. */
  predicate Succeeded(outcome: FetchOutcome)
    ensures outcome.Threw? ==> !Succeeded(outcome)
    ensures outcome.Replied? && outcome.reply.status == None ==> Succeeded(outcome)
    ensures outcome.Replied? && outcome.reply.status == Some("error") ==> !Succeeded(outcome)
    ensures outcome.Replied? && outcome.reply.status.Some? && outcome.reply.status.value != "error" ==> Succeeded(outcome)
  {
    outcome.Replied? && outcome.reply.status != Some("error")
  }

  /** The banner text of a failed request. */
  function FailureMessage(outcome: FetchOutcome): (message: string)
    requires !Succeeded(outcome)
    ensures outcome.Threw? ==> message == UnexpectedPrefix + outcome.errorMessage
    ensures outcome.Replied? ==> message == outcome.reply.message
  {
    match outcome
    case Threw(m) => UnexpectedPrefix + m
    case Replied(reply) => reply.message
  }
}
