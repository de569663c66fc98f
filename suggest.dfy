/** The suggestion request: the prompt get_ai_suggestions builds from the selection, and what the
    background request (_run_ai_request_thread) makes of the service's reply. */
module Suggest {
  import opened Wrappers
  import opened Text
  import opened Paths
  import opened Selection

  /** The type word a prompt line carries. */
  function TypeWord(isFolder: bool): string {
    if isFolder then "folder" else "file"
  }

  /** The prompt line for one selected entry: `"<basename> (type: folder|file)"`. */
  function ItemLine(it: Item): string {
    Basename(it.path) + " (type: " + TypeWord(it.isFolder) + ")"
  }

  function ItemLines(sel: seq<Item>): seq<string> {
    seq(|sel|, i requires 0 <= i < |sel| => ItemLine(sel[i]))
  }

  /** items_text: the prompt lines joined by newlines. */
  function ItemsText(sel: seq<Item>): string {
    JoinLines(ItemLines(sel))
  }

  const FolderTail: string := " (type: folder)"
  const FileTail: string := " (type: file)"

  /** Reads a prompt line back into the name and the kind it was built from. */
  function ParseItemLine(line: string): Option<(string, bool)> {
    if EndsWith(line, FolderTail) then Some((line[..|line| - |FolderTail|], true))
    else if EndsWith(line, FileTail) then Some((line[..|line| - |FileTail|], false))
    else None
  }

  /** Each prompt line reads back as the entry's basename and kind. */
  lemma ItemLineRoundTrip(it: Item)
    ensures ParseItemLine(ItemLine(it)) == Some((Basename(it.path), it.isFolder))
  {
    var b := Basename(it.path);
    var l := ItemLine(it);
    if it.isFolder {
      assert l == b + FolderTail;
      assert l[|l| - |FolderTail|..] == FolderTail;
      assert l[..|l| - |FolderTail|] == b;
    } else {
      assert l == b + FileTail;
      assert l[|l| - |FileTail|..] == FileTail;
      assert l[..|l| - |FileTail|] == b;
      assert l[|l| - 2] == 'e';
      assert !EndsWith(l, FolderTail);
    }
  }

  /** A basename holds no newline when its path holds none. */
  lemma BasenameNoNewline(p: string)
    requires '\n' !in p
    ensures '\n' !in Basename(p)
  {
    var b := Basename(p);
    forall k | 0 <= k < |b| ensures b[k] != '\n' {
      assert b[k] == p[SplitPoint(p) + k];
    }
  }

  lemma ItemLineNoNewline(it: Item)
    requires '\n' !in it.path
    ensures '\n' !in ItemLine(it)
  {
    BasenameNoNewline(it.path);
    assert ItemLine(it) == Basename(it.path) + (" (type: " + TypeWord(it.isFolder) + ")");
  }

  /** Splitting items_text at its newlines and reading each line back gives every selected
      entry's basename and kind, in selection order (paths hold no newline). */
  lemma ItemsTextRoundTrip(sel: seq<Item>)
    requires |sel| >= 1
    requires forall i :: 0 <= i < |sel| ==> '\n' !in sel[i].path
    ensures |SplitLines(ItemsText(sel))| == |sel|
    ensures forall i :: 0 <= i < |sel| ==>
              ParseItemLine(SplitLines(ItemsText(sel))[i]) == Some((Basename(sel[i].path), sel[i].isFolder))
  {
    var lines := ItemLines(sel);
    forall i | 0 <= i < |lines| ensures '\n' !in lines[i] {
      ItemLineNoNewline(sel[i]);
    }
    SplitJoinLines(lines);
    forall i | 0 <= i < |sel|
      ensures ParseItemLine(SplitLines(ItemsText(sel))[i]) == Some((Basename(sel[i].path), sel[i].isFolder))
    {
      ItemLineRoundTrip(sel[i]);
    }
  }

  /** The continuation-line indent inside the source's triple-quoted prompt. */
  const Indent: string := "        "
  const PromptHead: string := "Given these file/folder names:\n" + Indent
  /** The blank line between the item list and the instructions. */
  const PromptGap: string := "\n" + Indent + "\n" + Indent
  const PromptTail: string :=
    "\n" + Indent + "\n" + Indent + "Provide suggestions in a JSON format with original names as keys and suggested names as values.\n"
    + Indent + "Keep the file extensions unchanged for files.\n"
    + Indent + "Return ONLY valid JSON with no other explanatory text."

  /** The prompt: the item lines, then the stripped instruction text, then the fixed request. */
  function Prompt(sel: seq<Item>, instructions: string): string {
    PromptHead + ItemsText(sel) + PromptGap + Strip(instructions) + PromptTail
  }

  /** Where the pieces of a five-part concatenation sit. */
  lemma ConcatPieces(a: string, b: string, c: string, d: string, e: string)
    ensures var p := a + b + c + d + e;
            && |p| == |a| + |b| + |c| + |d| + |e|
            && p[..|a|] == a
            && p[|a|..|a| + |b|] == b
            && p[|a| + |b| + |c|..|a| + |b| + |c| + |d|] == d
            && p[|p| - |e|..] == e
  {
  }

  /** The prompt starts with the fixed heading followed by items_text, ends with the fixed request,
      and holds the stripped instructions verbatim in between. */
  lemma PromptLayout(sel: seq<Item>, instructions: string)
    ensures var p := Prompt(sel, instructions);
            var k := |PromptHead| + |ItemsText(sel)|;
            var m := k + |PromptGap|;
            && StartsWith(p, PromptHead)
            && m + |Strip(instructions)| + |PromptTail| == |p|
            && p[|PromptHead|..k] == ItemsText(sel)
            && p[m..m + |Strip(instructions)|] == Strip(instructions)
            && EndsWith(p, PromptTail)
  {
    ConcatPieces(PromptHead, ItemsText(sel), PromptGap, Strip(instructions), PromptTail);
  }

  /** The error returned when no JSON object can be cut out of the reply. */
  const NoJsonMessage: string := "AI response did not contain a valid JSON object."

  /** The JSON extraction: a reply whose stripped text starts with '{' is used whole; otherwise the
      greedy `{.*}` (DOTALL) match, from the first '{' to the last '}' after it; otherwise an error. */
  function ExtractJson(text: string): (r: Result<string, string>)
    ensures StartsWith(Strip(text), "{") ==> r == Ok(text)
    ensures r.Err? ==> r.error == NoJsonMessage
  {
    if StartsWith(Strip(text), "{") then Ok(text) else Cut(text)
  }

  /** The greedy `{.*}` (DOTALL) match: from the first '{' to the last '}', when that one follows it. */
  function Cut(text: string): (r: Result<string, string>)
    ensures r.Err? ==> r.error == NoJsonMessage
  {
    match (FirstIndexOf(text, '{'), LastIndexOf(text, '}'))
    case (Some(i), Some(j)) =>
      if i < j then Ok(text[i..j + 1]) else Err(NoJsonMessage)
    case _ => Err(NoJsonMessage)
  }

  /** A successful cut runs from the first '{' to the last '}'. */
  lemma CutRange(text: string)
    requires Cut(text).Ok?
    ensures exists i, j :: (0 <= i < j < |text| && Cut(text).value == text[i..j + 1]
                            && text[i] == '{' && text[j] == '}'
                            && (forall k :: 0 <= k < i ==> text[k] != '{')
                            && (forall k :: j < k < |text| ==> text[k] != '}'))
  {
    var i, j := FirstIndexOf(text, '{').value, LastIndexOf(text, '}').value;
    assert Cut(text).value == text[i..j + 1];
  }

  /** The cut fails exactly when no '}' follows any '{'. */
  lemma CutFails(text: string)
    ensures Cut(text).Err? <==> forall i, j :: 0 <= i < j < |text| && text[i] == '{' ==> text[j] != '}'
  {
    var fi := FirstIndexOf(text, '{');
    var lj := LastIndexOf(text, '}');
    if fi.Some? && lj.Some? {
      if fi.value >= lj.value {
        forall i, j | 0 <= i < j < |text| && text[i] == '{' ensures text[j] != '}' {
          assert fi.value <= i;
        }
      } else {
        assert text[fi.value] == '{' && text[lj.value] == '}';
      }
    }
  }

  /** When the reply is not used whole, the extracted text runs from the first '{' to the last '}'. */
  lemma ExtractJsonCut(text: string)
    requires !StartsWith(Strip(text), "{") && ExtractJson(text).Ok?
    ensures exists i, j :: (0 <= i < j < |text| && ExtractJson(text).value == text[i..j + 1]
                            && text[i] == '{' && text[j] == '}'
                            && (forall k :: 0 <= k < i ==> text[k] != '{')
                            && (forall k :: j < k < |text| ==> text[k] != '}'))
  {
    assert ExtractJson(text) == Cut(text);
    CutRange(text);
  }

  /** Extraction fails exactly when the stripped reply does not start with '{' and no '}' follows
      any '{'. */
  lemma ExtractJsonFails(text: string)
    ensures ExtractJson(text).Err? <==>
              && !StartsWith(Strip(text), "{")
              && forall i, j :: 0 <= i < j < |text| && text[i] == '{' ==> text[j] != '}'
  {
    CutFails(text);
  }

  /** A cut-out object begins with '{' and ends with '}'; a reply used whole has '{' as its first
      non-whitespace character. */
  lemma ExtractJsonBraces(text: string)
    requires ExtractJson(text).Ok?
    ensures var t := ExtractJson(text).value;
            if StartsWith(Strip(text), "{") then
              t == text && exists i :: 0 <= i < |text| && text[i] == '{' && forall k :: 0 <= k < i ==> IsSpace(text[k])
            else
              |t| >= 2 && t[0] == '{' && t[|t| - 1] == '}'
  {
    if StartsWith(Strip(text), "{") {
      assert "{" == ['{'];
      StrippedStartsWith(text, '{');
    } else {
      assert ExtractJson(text) == Cut(text);
      CutRange(text);
    }
  }

  /** What response.json() gave on the reply: nothing parseable (with the exception text), or an
      object with its `error.message` (if any) and its `choices[0].message.content` (or the text of
      the exception looking it up raised). */
  datatype Body = NotJson(reason: string) | Json(errorMessage: Option<string>, content: Result<string, string>)

  /** The outcome of requests.post: an exception (with its text), or a reply with a status code. */
  datatype Reply = Failed(reason: string) | Reply(status: nat, body: Body)

  const ApiErrorPrefix: string := "API Error: Status "

  /** The message for a non-200 reply: the status code, and on a second line the service's error
      message, or "Unknown error" when the body is JSON without one; only the status line when
      the body is not JSON. */
  function ApiErrorMessage(status: nat, body: Body): string {
    var head := ApiErrorPrefix + NatToString(status);
    match body
    case NotJson(_) => head
    case Json(em, _) => head + "\n" + em.GetOr("Unknown error")
  }

  /** The status code read back out of an API error message. */
  function ReadStatus(msg: string): Option<nat> {
    if StartsWith(msg, ApiErrorPrefix) then
      var ds := LeadingDigits(msg[|ApiErrorPrefix|..]);
      if ds == [] then None else Some(DigitsValue(ds))
    else None
  }

  /** What follows the status code in the API error message. */
  function ApiErrorTail(body: Body): string {
    match body
    case NotJson(_) => ""
    case Json(em, _) => "\n" + em.GetOr("Unknown error")
  }

  lemma ApiErrorSplit(status: nat, body: Body)
    ensures ApiErrorMessage(status, body) == ApiErrorPrefix + NatToString(status) + ApiErrorTail(body)
    ensures ApiErrorTail(body) == [] <==> body.NotJson?
    ensures ApiErrorTail(body) == [] || !IsDigit(ApiErrorTail(body)[0])
  {
  }

  /** The status code can be read back from the error message, which either ends after it or
      continues on a new line. */
  lemma ApiErrorStatusRoundTrip(status: nat, body: Body)
    ensures StartsWith(ApiErrorMessage(status, body), ApiErrorPrefix + NatToString(status))
    ensures body.NotJson? <==> ApiErrorMessage(status, body) == ApiErrorPrefix + NatToString(status)
    ensures ReadStatus(ApiErrorMessage(status, body)) == Some(status)
  {
    var head := ApiErrorPrefix + NatToString(status);
    var tail := ApiErrorTail(body);
    ApiErrorSplit(status, body);
    assert (head + tail)[..|head|] == head;
    assert |head + tail| == |head| <==> tail == [];
    CountAfter(ApiErrorPrefix, status, tail);
    var m := head + tail;
    assert m[|ApiErrorPrefix|..] == NatToString(status) + tail;
    LeadingDigitsOf(NatToString(status), tail);
  }

  /** _run_ai_request_thread: the mapping the reply yields, or the text of the exception it raises.
      `loads` stands for json.loads on the extracted text. */
  function Worker(reply: Reply, loads: string -> Result<map<string, string>, string>): Result<map<string, string>, string> {
    match reply
    case Failed(reason) => Err(reason)
    case Reply(status, body) =>
      if status != 200 then Err(ApiErrorMessage(status, body))
      else match body
        case NotJson(reason) => Err(reason)
        case Json(_, Err(reason)) => Err(reason)
        case Json(_, Ok(content)) =>
          match ExtractJson(content)
          case Err(e) => Err(e)
          case Ok(t) => loads(t)
  }

  /** A non-200 reply always fails with its status in the message; a 200 reply whose content holds
      no JSON object fails with the fixed message; otherwise the decoder sees the extracted text.
      The decoder is consulted only for a 200 reply with content. */
  lemma WorkerCases(reply: Reply, loads: string -> Result<map<string, string>, string>)
    ensures reply.Reply? && reply.status != 200 ==>
              Worker(reply, loads).Err? && ReadStatus(Worker(reply, loads).error) == Some(reply.status)
    ensures reply.Reply? && reply.status == 200 && reply.body.Json? && reply.body.content.Ok? ==>
              var c := reply.body.content.value;
              if ExtractJson(c).Err? then Worker(reply, loads) == Err(NoJsonMessage)
              else Worker(reply, loads) == loads(ExtractJson(c).value)
    ensures Worker(reply, loads).Ok? ==>
              reply.Reply? && reply.status == 200 && reply.body.Json? && reply.body.content.Ok?
  {
    if reply.Reply? && reply.status != 200 {
      ApiErrorStatusRoundTrip(reply.status, reply.body);
    }
  }

  const FailurePrefix: string := "Failed to get AI suggestions: "

  /** The error box _check_ai_thread shows for a failed request. */
  function FailureMessage(reason: string): (m: string)
    ensures StartsWith(m, FailurePrefix) && m[|FailurePrefix|..] == reason
  {
    FailurePrefix + reason
  }
}
