/**
 Which shared content the activity accepts (`testSupported`) and which save
 handler `useIntent` hands it to. Both read the intent's action and its
 optional MIME type; a missing type is never supported.

 Alongside the two functions as written, `Classify` states the acceptance
 rule as an ordered decision table, and the lemmas show that both functions
 follow that one table, so they agree with each other.
 */
module Intents {
  import opened Base

  /** `Intent.ACTION_SEND`. */
  const ActionSend: string := "android.intent.action.SEND"

  /** `Intent.ACTION_SEND_MULTIPLE`. */
  const ActionSendMultiple: string := "android.intent.action.SEND_MULTIPLE"

  /** `testSupported`. */
  function TestSupported(action: Option<string>, mimeType: Option<string>): (r: bool)
    ensures mimeType.None? ==> !r
    ensures action != Some(ActionSend) && action != Some(ActionSendMultiple) ==> !r
  {
    match mimeType
    case None => false
    case Some(t) =>
      if action == Some(ActionSend) then
        StartsWith(t, "image/") || StartsWith(t, "video/") || t == "text/plain"
      else if action == Some(ActionSendMultiple) then
        StartsWith(t, "image/")
      else false
  }

  /** The save handler `useIntent` calls; `NoHandler` is the path that ends
      in `finishIntent(false)` without saving anything. */
  datatype Handler = ImageVideoHandler | TextHandler | MultipleImagesHandler | NoHandler

  /** The branch structure of `useIntent`. */
  function Dispatch(action: Option<string>, mimeType: Option<string>): (h: Handler)
    ensures mimeType.None? ==> h == NoHandler
    ensures h == MultipleImagesHandler ==> action == Some(ActionSendMultiple)
    ensures h == ImageVideoHandler || h == TextHandler ==> action == Some(ActionSend)
  {
    match mimeType
    case None => NoHandler
    case Some(t) =>
      if action == Some(ActionSend) then
        if StartsWith(t, "image/") || StartsWith(t, "video/") then ImageVideoHandler
        else if t == "text/plain" then TextHandler
        else NoHandler
      else if action == Some(ActionSendMultiple) then
        if StartsWith(t, "image/") then MultipleImagesHandler else NoHandler
      else NoHandler
  }

  /** The kinds of content the pipeline distinguishes. */
  datatype Kind = Image | Video | PlainText | MultiImage | Unsupported

  /** How a rule matches the MIME type. */
  datatype TypePattern = Prefix(prefix: string) | Exactly(mimeType: string) {
    predicate Matches(t: string) {
      match this
      case Prefix(p) => StartsWith(t, p)
      case Exactly(e) => t == e
    }
  }

  /** One row of the decision table. */
  datatype Rule = Rule(action: string, pattern: TypePattern, kind: Kind)

  /** The accepted (action, MIME type) pairs, checked in order. */
  const Table: seq<Rule> := [
    Rule(ActionSend, Prefix("image/"), Image),
    Rule(ActionSend, Prefix("video/"), Video),
    Rule(ActionSend, Exactly("text/plain"), PlainText),
    Rule(ActionSendMultiple, Prefix("image/"), MultiImage)
  ]

  /** Rule `r` applies to the pair. */
  predicate Hits(r: Rule, action: string, t: string) {
    r.action == action && r.pattern.Matches(t)
  }

  /** The kind given by the first rule that matches, `Unsupported` when none does. */
  function FirstMatch(rules: seq<Rule>, action: string, t: string): (k: Kind)
    ensures (forall i :: 0 <= i < |rules| ==> !Hits(rules[i], action, t)) ==> k == Unsupported
    ensures forall i :: 0 <= i < |rules| && Hits(rules[i], action, t) && (forall j :: 0 <= j < i ==> !Hits(rules[j], action, t)) ==> k == rules[i].kind
  {
    if |rules| == 0 then Unsupported
    else if Hits(rules[0], action, t) then rules[0].kind
    else
      var k := FirstMatch(rules[1..], action, t);
      assert forall i :: 1 <= i < |rules| ==> rules[i] == rules[1..][i - 1];
      k
  }

  /** The classification of an intent by the decision table. */
  function Classify(action: Option<string>, mimeType: Option<string>): Kind {
    if action.None? || mimeType.None? then Unsupported
    else FirstMatch(Table, action.value, mimeType.value)
  }

  /** The handler each kind is given to. */
  function HandlerFor(k: Kind): Handler {
    match k
    case Image => ImageVideoHandler
    case Video => ImageVideoHandler
    case PlainText => TextHandler
    case MultiImage => MultipleImagesHandler
    case Unsupported => NoHandler
  }

  /** `testSupported` accepts exactly the pairs the table accepts. */
  lemma TestSupportedFollowsTable(action: Option<string>, mimeType: Option<string>)
    ensures TestSupported(action, mimeType) <==> Classify(action, mimeType) != Unsupported
  {
    if action.Some? && mimeType.Some? {
      TableRows(action.value, mimeType.value);
    }
  }

  /** `useIntent` gives each pair to the handler for its kind in the table. */
  lemma DispatchFollowsTable(action: Option<string>, mimeType: Option<string>)
    ensures Dispatch(action, mimeType) == HandlerFor(Classify(action, mimeType))
  {
    if action.Some? && mimeType.Some? {
      TableRows(action.value, mimeType.value);
    }
  }

  /** `useIntent` calls a save handler exactly when `testSupported` holds. */
  lemma DispatchAgreesWithTestSupported(action: Option<string>, mimeType: Option<string>)
    ensures Dispatch(action, mimeType) != NoHandler <==> TestSupported(action, mimeType)
  {
    TestSupportedFollowsTable(action, mimeType);
    DispatchFollowsTable(action, mimeType);
  }

  /** The table row by row: the first match for each action and type. */
  lemma TableRows(action: string, t: string)
    ensures FirstMatch(Table, action, t) ==
      if action == ActionSend && StartsWith(t, "image/") then Image
      else if action == ActionSend && StartsWith(t, "video/") then Video
      else if action == ActionSend && t == "text/plain" then PlainText
      else if action == ActionSendMultiple && StartsWith(t, "image/") then MultiImage
      else Unsupported
  {
    assert Table[0] == Rule(ActionSend, Prefix("image/"), Image);
    assert Table[1] == Rule(ActionSend, Prefix("video/"), Video);
    assert Table[2] == Rule(ActionSend, Exactly("text/plain"), PlainText);
    assert Table[3] == Rule(ActionSendMultiple, Prefix("image/"), MultiImage);
  }

  /** Images are accepted alone and in batches. */
  lemma ImagesAccepted(t: string)
    requires StartsWith(t, "image/")
    ensures Classify(Some(ActionSend), Some(t)) == Image
    ensures Classify(Some(ActionSendMultiple), Some(t)) == MultiImage
  {
    TableRows(ActionSend, t);
    TableRows(ActionSendMultiple, t);
  }

  /** Videos and plain text are accepted alone but not in batches. */
  lemma OnlyImagesInBatches(t: string)
    requires StartsWith(t, "video/") || t == "text/plain"
    ensures Classify(Some(ActionSend), Some(t)) == (if t == "text/plain" then PlainText else Video)
    ensures Classify(Some(ActionSendMultiple), Some(t)) == Unsupported
  {
    assert t[0] != 'i';
    assert !StartsWith(t, "image/");
    TableRows(ActionSend, t);
    TableRows(ActionSendMultiple, t);
  }
}
