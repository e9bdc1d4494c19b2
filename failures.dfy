// The structured failure value of a backup run: a list of human-readable
// messages and an optional list of detail lines (C# `null` is `None`).
module Failures {
  import opened Wrappers

  datatype BackupException = BackupException(errorMessages: seq<string>, errorDetails: Option<seq<string>>)

  // Optional single detail line to optional detail list: null stays null,
  // anything else becomes a one-line list.
  function DetailLines(errorDetails: Option<string>): (lines: Option<seq<string>>)
    ensures lines.None? <==> errorDetails.None?
    ensures errorDetails.Some? ==> lines.value == [errorDetails.value]
  {
    match errorDetails
    case None => None
    case Some(d) => Some([d])
  }

  // `new BackupException(string errorMessage, string errorDetails = null)`.
  function FromMessage(errorMessage: string, errorDetails: Option<string>): (e: BackupException)
    ensures e.errorMessages == [errorMessage]
    ensures e.errorDetails.None? <==> errorDetails.None?
    ensures errorDetails.Some? ==> e.errorDetails == Some([errorDetails.value])
  {
    BackupException([errorMessage], DetailLines(errorDetails))
  }

  // `new BackupException(IList<string> errorMessages, IList<string> errorDetails = null)`:
  // both lists are kept as given.
  function FromMessageList(errorMessages: seq<string>, errorDetails: Option<seq<string>>): (e: BackupException)
    ensures e.errorMessages == errorMessages && e.errorDetails == errorDetails
  {
    BackupException(errorMessages, errorDetails)
  }

  // `new BackupException(IList<string> errorMessages, string errorDetails = null)`.
  function FromMessageListAndDetail(errorMessages: seq<string>, errorDetails: Option<string>): (e: BackupException)
    ensures e.errorMessages == errorMessages
    ensures e.errorDetails.None? <==> errorDetails.None?
    ensures errorDetails.Some? ==> e.errorDetails == Some([errorDetails.value])
  {
    BackupException(errorMessages, DetailLines(errorDetails))
  }

  // The three constructors agree: a single message is the one-element list,
  // and a single detail is the one-element detail list.
  lemma ConstructorsAgree(errorMessage: string, errorMessages: seq<string>, errorDetails: Option<string>)
    ensures FromMessage(errorMessage, errorDetails) == FromMessageListAndDetail([errorMessage], errorDetails)
    ensures FromMessageListAndDetail(errorMessages, errorDetails)
         == FromMessageList(errorMessages, DetailLines(errorDetails))
  {
  }
}
