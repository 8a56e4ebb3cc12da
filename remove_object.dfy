/**
  The object-removal page: the checks on the chosen file and on the typed
  object name before anything is sent, and the page state the handlers set.
  The server's answer arrives as a parameter; toasts are returned values.
*/
module RemoveObject {
  import opened Wrappers

  datatype File = File(name: string, mimeType: string)

  datatype Toast = ErrorToast(text: string) | SuccessToast(text: string)

  /** The multipart body posted to the removal endpoint. */
  datatype FormData = FormData(image: File, objectName: string)

  /** What the request comes back with: a JSON envelope, or a thrown error. */
  datatype Reply =
    | Answer(success: bool, content: string, message: string)
    | Thrown(responseMessage: string, errorMessage: string)

  /** The verdict of the submit guards: a message to show, or the body to send. */
  datatype Decision = Reject(message: string) | Submit(form: FormData)

  const AcceptedTypes: seq<string> := ["image/jpeg", "image/png", "image/webp"]

  const NoImage: string := "Please upload an image file."
  const NoObject: string := "Please describe the object to remove."
  const SeveralObjects: string := "Please enter only one object name."
  const InvalidType: string := "Invalid file type. Please upload JPG, PNG, or WEBP."
  const ImageLoaded: string := "Image loaded!"
  const RemovalFailed: string := "Failed to remove object."
  const SomethingWrong: string := "Something went wrong"
  const NoFileSelected: string := "No file selected"

  /** The characters `String.prototype.trim` strips: white space and line terminators. */
  predicate IsWhitespace(c: char) {
    || c == '\t' || c == '\n' || c == '\U{000B}' || c == '\U{000C}' || c == '\r'
    || c == ' ' || c == '\U{00A0}' || c == '\U{1680}'
    || ('\U{2000}' <= c <= '\U{200A}')
    || c == '\U{2028}' || c == '\U{2029}' || c == '\U{202F}' || c == '\U{205F}'
    || c == '\U{3000}' || c == '\U{FEFF}'
  }

  predicate AllWhitespace(s: string) {
    forall k :: 0 <= k < |s| ==> IsWhitespace(s[k])
  }

  function TrimStart(s: string): (r: string)
    ensures |r| <= |s| && r == s[|s| - |r|..]
    ensures AllWhitespace(s[..|s| - |r|])
    ensures r == [] || !IsWhitespace(r[0])
  {
    if s == [] || !IsWhitespace(s[0]) then s
    else
      var r := TrimStart(s[1..]);
      assert s[..|s| - |r|] == [s[0]] + s[1..][..|s[1..]| - |r|];
      r
  }

  function TrimEnd(s: string): (r: string)
    ensures |r| <= |s| && r == s[..|r|]
    ensures AllWhitespace(s[|r|..])
    ensures r == [] || !IsWhitespace(r[|r| - 1])
  {
    if s == [] || !IsWhitespace(s[|s| - 1]) then s
    else
      var r := TrimEnd(s[..|s| - 1]);
      assert s[|r|..] == s[..|s| - 1][|r|..] + [s[|s| - 1]];
      r
  }

  /** `r` is `s` with the white space before index `a` and after `r` cut off. */
  predicate CutAt(s: string, a: int, r: string) {
    && 0 <= a <= |s| - |r|
    && r == s[a..a + |r|]
    && AllWhitespace(s[..a])
    && AllWhitespace(s[a + |r|..])
  }

  /**
    `s.trim()`: begins and ends with a non-white character, and is empty
    exactly when `s` is white through and through; TrimCutsWhitespace shows it
    is the slice of `s` left once the white space at both ends is cut off.
  */
  function Trim(s: string): (r: string)
    ensures |r| <= |s|
    ensures r == [] || (!IsWhitespace(r[0]) && !IsWhitespace(r[|r| - 1]))
    ensures r == [] <==> AllWhitespace(s)
  {
    var front := TrimStart(s);
    var r := TrimEnd(front);
    assert r != [] ==> r[0] == front[0];
    assert r == [] ==> s == s[..|s| - |front|] + front[|r|..];
    r
  }

  /** Trimming only removes white space, at the two ends of the text. */
  lemma TrimCutsWhitespace(s: string)
    ensures exists a :: CutAt(s, a, Trim(s))
  {
    var front := TrimStart(s);
    var r := TrimEnd(front);
    var a := |s| - |front|;
    assert front == s[a..];
    assert r == front[..|r|];
    assert s[a..a + |r|] == front[..|r|];
    assert s[a + |r|..] == front[|r|..];
    assert AllWhitespace(s[..a]);
    assert AllWhitespace(front[|r|..]);
    assert CutAt(s, a, r) && Trim(s) == r;
  }

  /** `s.split(' ')`: the pieces between single spaces, empty pieces included. */
  function SplitOnSpace(s: string): (r: seq<string>)
    ensures |r| >= 1
    ensures forall k :: 0 <= k < |r| ==> ' ' !in r[k]
    ensures |r| == 1 <==> ' ' !in s
  {
    if s == [] then [[]]
    else
      var rest := SplitOnSpace(s[1..]);
      assert s == [s[0]] + s[1..];
      if s[0] == ' ' then [[]] + rest
      else [[s[0]] + rest[0]] + rest[1..]
  }

  /** `pieces.join(' ')` */
  function JoinWithSpace(pieces: seq<string>): string
    requires |pieces| >= 1
  {
    if |pieces| == 1 then pieces[0]
    else pieces[0] + " " + JoinWithSpace(pieces[1..])
  }

  /** Splitting loses nothing: the pieces join back to the original text. */
  lemma {:induction false} SplitJoin(s: string)
    ensures JoinWithSpace(SplitOnSpace(s)) == s
  {
    if s != [] {
      var rest := SplitOnSpace(s[1..]);
      SplitJoin(s[1..]);
      if s[0] == ' ' {
        assert s == " " + s[1..];
      } else if |rest| == 1 {
        assert s == [s[0]] + s[1..];
      } else {
        assert JoinWithSpace(rest) == rest[0] + " " + JoinWithSpace(rest[1..]);
        assert [[s[0]] + rest[0]] + rest[1..] == [[s[0]] + rest[0]] + rest[1..];
        assert s == [s[0]] + s[1..];
      }
    }
  }

  /** The guards of onSubmitHandler, in their order. */
  function ValidateSubmission(imageFile: Option<File>, objectText: string): (d: Decision)
    ensures d.Submit? ==> imageFile.Some? && d.form.image == imageFile.value
  {
    var trimmed := Trim(objectText);
    if imageFile.None? then Reject(NoImage)
    else if trimmed == [] then Reject(NoObject)
    else if |SplitOnSpace(trimmed)| > 1 then Reject(SeveralObjects)
    else Submit(FormData(imageFile.value, trimmed))
  }

  /**
    A missing image is refused first, then a blank object name, then a name
    with a space; a form passing all three is sent with the image and the
    typed name cut of its surrounding white space, one non-empty word.
  */
  lemma SubmitGuards(imageFile: Option<File>, objectText: string)
    ensures var d := ValidateSubmission(imageFile, objectText);
      && (imageFile.None? ==> d == Reject(NoImage))
      && (imageFile.Some? && AllWhitespace(objectText) ==> d == Reject(NoObject))
      && (imageFile.Some? && !AllWhitespace(objectText) && ' ' in Trim(objectText) ==>
            d == Reject(SeveralObjects))
      && (d.Submit? <==> imageFile.Some? && !AllWhitespace(objectText) && ' ' !in Trim(objectText))
      && (d.Submit? ==>
            && d.form == FormData(imageFile.value, Trim(objectText))
            && d.form.objectName != []
            && ' ' !in d.form.objectName
            && !IsWhitespace(d.form.objectName[0])
            && !IsWhitespace(d.form.objectName[|d.form.objectName| - 1]))
  {
  }

  /** JavaScript's `a || b` on strings: the empty string is falsy. */
  function OrElse(a: string, b: string): (r: string)
    ensures r != "" <==> a != "" || b != ""
  {
    if a != "" then a else b
  }

  class RemoveObjectPage {
    var imageFile: Option<File>
    var fileName: string
    var objectText: string
    var loading: bool
    var content: string
    /** The body of the last request sent, None before the first one. */
    var sent: Option<FormData>

    constructor ()
      ensures imageFile == None && fileName == NoFileSelected && objectText == ""
      ensures !loading && content == "" && sent == None
    {
      imageFile := None;
      fileName := NoFileSelected;
      objectText := "";
      loading := false;
      content := "";
      sent := None;
    }

    /** The object input's onChange. */
    method SetObject(text: string)
      modifies this`objectText
      ensures objectText == text
    {
      objectText := text;
    }

    /**
      handleFileChange: no file chosen changes nothing; a JPEG, PNG or WEBP
      file becomes the page's image and its name is shown; any other type is
      refused and the previous choice stays.
    */
    method HandleFileChange(file: Option<File>) returns (toast: Option<Toast>)
      modifies this`imageFile, this`fileName
      ensures file.None? ==> toast == None
      ensures file.Some? ==>
        toast == Some(if file.value.mimeType in AcceptedTypes then SuccessToast(ImageLoaded)
                      else ErrorToast(InvalidType))
      ensures file.Some? && file.value.mimeType in AcceptedTypes ==>
        imageFile == file && fileName == file.value.name
      ensures file.None? || file.value.mimeType !in AcceptedTypes ==>
        imageFile == old(imageFile) && fileName == old(fileName)
    {
      toast := None;
      if file.Some? {
        if file.value.mimeType !in AcceptedTypes {
          return Some(ErrorToast(InvalidType));
        }
        imageFile := file;
        fileName := file.value.name;
        toast := Some(SuccessToast(ImageLoaded));
      }
    }

    /**
      onSubmitHandler up to the request: a rejected form shows the guard's
      message and touches nothing; an accepted one sets loading, clears the
      previous result and sends the image with the trimmed object name.
    */
    method OnSubmit() returns (toast: Option<Toast>)
      modifies this`loading, this`content, this`sent
      ensures var d := ValidateSubmission(old(imageFile), old(objectText));
        d.Reject? ==>
          && toast == Some(ErrorToast(d.message))
          && loading == old(loading) && content == old(content) && sent == old(sent)
      ensures var d := ValidateSubmission(old(imageFile), old(objectText));
        d.Submit? ==> toast == None && loading && content == "" && sent == Some(d.form)
    {
      var decision := ValidateSubmission(imageFile, objectText);
      if decision.Reject? {
        return Some(ErrorToast(decision.message));
      }
      sent := Some(decision.form);
      loading := true;
      content := "";
      toast := None;
    }

    /**
      The rest of onSubmitHandler once the request settles: a successful answer
      shows the new image, any failure shows a message; loading ends either way.
    */
    method FinishRequest(reply: Reply) returns (toast: Option<Toast>)
      modifies this`loading, this`content
      ensures !loading
      ensures reply.Answer? && reply.success ==> content == reply.content && toast == None
      ensures reply.Answer? && !reply.success ==>
        content == old(content) && toast == Some(ErrorToast(OrElse(reply.message, RemovalFailed)))
      ensures reply.Thrown? ==>
        && content == old(content)
        && toast == Some(ErrorToast(OrElse(reply.responseMessage, OrElse(reply.errorMessage, SomethingWrong))))
      ensures toast.Some? ==> toast.value.ErrorToast? && toast.value.text != ""
    {
      toast := None;
      match reply {
        case Answer(success, url, message) =>
          if success {
            content := url;
          } else {
            toast := Some(ErrorToast(OrElse(message, RemovalFailed)));
          }
        case Thrown(responseMessage, errorMessage) =>
          toast := Some(ErrorToast(OrElse(responseMessage, OrElse(errorMessage, SomethingWrong))));
      }
      loading := false;
    }
  }
}
