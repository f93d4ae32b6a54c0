/** `InOut.write_news_article`: the reply clean-up, the acceptance checks
    on the parsed reply, and the loop that asks the language model again
    until a reply passes. */
module InOut {
  import opened Wrappers
  import opened PyStr
  import opened Json

  // ---------------------------------------------------------------------
  // Escaping raw newlines
  // ---------------------------------------------------------------------

  function Count(s: string, c: char): nat {
    if s == [] then 0 else (if s[0] == c then 1 else 0) + Count(s[1..], c)
  }

  /** `text.replace("\n", "\\n")`: each line feed becomes the two
      characters backslash and `n`; nothing else changes. The result holds
      no raw line feed and is longer by the number of line feeds. */
  function EscapeNewlines(s: string): (r: string)
    ensures '\n' !in r
    ensures |r| == |s| + Count(s, '\n')
  {
    if s == [] then []
    else (if s[0] == '\n' then "\\n" else [s[0]]) + EscapeNewlines(s[1..])
  }

  /** Escaping works character by character. */
  lemma {:induction false} EscapeConcat(a: string, b: string)
    ensures EscapeNewlines(a + b) == EscapeNewlines(a) + EscapeNewlines(b)
  {
    if a == [] {
      assert a + b == b;
    } else {
      assert (a + b)[0] == a[0];
      assert (a + b)[1..] == a[1..] + b;
      EscapeConcat(a[1..], b);
    }
  }

  /** Text without line feeds is left exactly as it is. */
  lemma {:induction false} EscapeWithoutNewlines(s: string)
    requires '\n' !in s
    ensures EscapeNewlines(s) == s
  {
    if s != [] {
      assert s[0] != '\n';
      assert '\n' !in s[1..];
      EscapeWithoutNewlines(s[1..]);
    }
  }

  /** Escaping keeps text with whitespace at neither end in that shape:
      its first and last characters are not line feeds, so they stay. */
  lemma EscapeKeepsTrimmed(s: string)
    requires Trimmed(s)
    ensures Trimmed(EscapeNewlines(s))
  {
    if s != [] {
      var init, last := s[..|s| - 1], s[|s| - 1];
      assert s == init + [last];
      EscapeConcat(init, [last]);
      assert [last][1..] == [];
      assert EscapeNewlines([last]) == [last];
    }
  }

  /** Undoes EscapeNewlines on text that holds no backslash. */
  function UnescapeNewlines(s: string): string {
    if s == [] then []
    else if |s| >= 2 && s[0] == '\\' && s[1] == 'n' then "\n" + UnescapeNewlines(s[2..])
    else [s[0]] + UnescapeNewlines(s[1..])
  }

  lemma {:induction false} EscapeRoundTrip(s: string)
    requires '\\' !in s
    ensures UnescapeNewlines(EscapeNewlines(s)) == s
  {
    if s != [] {
      var r := EscapeNewlines(s[1..]);
      assert '\\' !in s[1..];
      EscapeRoundTrip(s[1..]);
      if s[0] == '\n' {
        assert ("\\n" + r)[2..] == r;
      } else {
        assert ([s[0]] + r)[1..] == r;
      }
    }
  }

  /** Without the backslash-free condition escaping is not invertible: a
      raw line feed and the two characters backslash and `n` come out the
      same. */
  lemma EscapeMergesNewlineAndBackslashN()
    ensures EscapeNewlines("\n") == EscapeNewlines("\\n")
  {
  }

  // ---------------------------------------------------------------------
  // Preparing a reply: strip, then escape
  // ---------------------------------------------------------------------

  /** The text handed to the JSON parser: the reply stripped, then its
      line feeds escaped. */
  function Prepare(reply: string): string {
    EscapeNewlines(Strip(reply))
  }

  /** The prepared text holds no raw line feed and has whitespace at
      neither end. */
  lemma PrepareSpec(reply: string)
    ensures '\n' !in Prepare(reply)
    ensures Trimmed(Prepare(reply))
  {
    StripSpec(reply);
    EscapeKeepsTrimmed(Strip(reply));
  }

  /** Because stripping comes first, whitespace (line feeds included)
      around the reply is removed rather than escaped. */
  lemma PrepareIgnoresPadding(a: string, reply: string, b: string)
    requires AllSpace(a) && AllSpace(b)
    ensures Prepare(a + reply + b) == Prepare(reply)
  {
    StripIgnoresPadding(a, reply, b);
  }

  /** Line feeds around a reply are stripped away, not escaped. */
  lemma PrepareDropsOuterNewlines()
    ensures Prepare("\n{}\n") == "{}"
  {
    assert AllSpace("\n") && Trimmed("{}");
    assert "\n{}\n" == "\n" + "{}" + "\n";
    StripUnique("\n", "{}", "\n");
    EscapeWithoutNewlines("{}");
  }

  // ---------------------------------------------------------------------
  // Acceptance checks on the parsed value
  // ---------------------------------------------------------------------

  const ExpectedKeys: seq<string> := ["title", "header_img_description", "body"]

  /** Why a reply was turned down: the parser failed, an `in` or a
      subscript raised TypeError, or one of the three assertions failed. */
  datatype Rejection = ParseFailed | TypeError | MissingKey | NotAString | EmptyField

  /** A field holding a non-empty string under `key`. */
  predicate GoodField(fields: map<string, JsonValue>, key: string) {
    key in fields && fields[key].JString? && |fields[key].text| > 0
  }

  /** What an accepted value is: an object whose `title`,
      `header_img_description` and `body` are non-empty strings. Other keys
      may be present. */
  predicate Accepted(v: JsonValue) {
    v.JObject?
    && GoodField(v.fields, "title")
    && GoodField(v.fields, "header_img_description")
    && GoodField(v.fields, "body")
  }

  predicate IsInfix(p: string, s: string) {
    p <= s || (s != [] && IsInfix(p, s[1..]))
  }

  /** Python's `key in value` for every expected key: on a dict it asks for
      the key, on a list for an equal element, on a str for a substring;
      on None, a bool or a number it raises TypeError. */
  function KeysPresent(v: JsonValue): Result<bool, Rejection> {
    match v
    case JObject(m) => Ok(forall k <- ExpectedKeys :: k in m)
    case JArray(items) => Ok(forall k <- ExpectedKeys :: JString(k) in items)
    case JString(t) => Ok(forall k <- ExpectedKeys :: IsInfix(k, t))
    case _ => Err(TypeError)
  }

  /** The three assertions, in order. The membership test may pass on a
      list or a str, but subscripting either with a key raises TypeError,
      so only a dict gets through; the dict is returned as it is. */
  function Check(v: JsonValue): (r: Result<map<string, JsonValue>, Rejection>)
    ensures r.Ok? <==> Accepted(v)
    ensures r.Ok? ==> r.value == v.fields
  {
    match KeysPresent(v)
    case Err(e) => Err(e)
    case Ok(present) =>
      if !present then Err(MissingKey)
      else if !v.JObject? then Err(TypeError)
      else if !(forall k <- ExpectedKeys :: v.fields[k].JString?) then Err(NotAString)
      else if !(forall k <- ExpectedKeys :: |v.fields[k].text| > 0) then Err(EmptyField)
      else Ok(v.fields)
  }

  /** Which rejection each kind of value meets: None, a bool or a number
      fails the membership test with TypeError; a dict lacking a key fails
      it with an assertion; a dict with all three keys that is not accepted
      fails the type or the length assertion. */
  lemma CheckRejections(v: JsonValue)
    ensures !(v.JObject? || v.JArray? || v.JString?) ==> Check(v) == Err(TypeError)
    ensures v.JObject? && (exists k <- ExpectedKeys :: k !in v.fields) ==> Check(v) == Err(MissingKey)
    ensures v.JObject? && (forall k <- ExpectedKeys :: k in v.fields) && !Accepted(v) ==>
              Check(v) == Err(NotAString) || Check(v) == Err(EmptyField)
    ensures (v.JArray? || v.JString?) ==> Check(v) == Err(MissingKey) || Check(v) == Err(TypeError)
  {
  }

  /** A list holding the three key names passes the membership test and is
      still turned down, when it is subscripted. */
  lemma ListOfKeysRejected()
    ensures KeysPresent(JArray([JString("title"), JString("header_img_description"), JString("body")])) == Ok(true)
    ensures Check(JArray([JString("title"), JString("header_img_description"), JString("body")])) == Err(TypeError)
  {
  }

  /** Keys beyond the three never cause a rejection. */
  lemma ExtraKeysAllowed(m: map<string, JsonValue>, key: string, value: JsonValue)
    requires Accepted(JObject(m))
    requires key !in ExpectedKeys
    ensures Check(JObject(m[key := value])) == Ok(m[key := value])
  {
  }

  /** One reply, from the raw text to an accepted dict or a rejection;
      `parse` stands for `json.loads`. */
  function Validate(parse: string -> Option<JsonValue>, reply: string): Result<map<string, JsonValue>, Rejection> {
    match parse(Prepare(reply))
    case None => Err(ParseFailed)
    case Some(v) => Check(v)
  }

  /** A reply is accepted exactly when its prepared text parses to an
      accepted value, and that value is what comes back. */
  lemma ValidateSpec(parse: string -> Option<JsonValue>, reply: string)
    ensures var r, loaded := Validate(parse, reply), parse(Prepare(reply));
      (r.Ok? <==> loaded.Some? && Accepted(loaded.value))
      && (r.Ok? ==> loaded == Some(JObject(r.value)))
      && (loaded.None? ==> r == Err(ParseFailed))
  {
  }

  // ---------------------------------------------------------------------
  // The retry loop
  // ---------------------------------------------------------------------

  /** The reply is turned down. */
  predicate Rejected(parse: string -> Option<JsonValue>, reply: string) {
    Validate(parse, reply).Err?
  }

  datatype Message = SystemMessage(content: string) | HumanMessage(content: string)

  /** The message pair, built once before the loop. */
  function ArticleRequest(instructions: string, description: string): seq<Message> {
    [SystemMessage(instructions), HumanMessage("An article about " + description)]
  }

  /** The body of the `try` block for one reply: strip, escape, parse,
      then the three assertions. */
  method TryReply(parse: string -> Option<JsonValue>, reply: string)
    returns (outcome: Result<map<string, JsonValue>, Rejection>)
    ensures outcome == Validate(parse, reply)
    ensures outcome.Ok? ==> Accepted(JObject(outcome.value))
  {
    var generatedText := reply;
    generatedText := Strip(generatedText);
    generatedText := EscapeNewlines(generatedText);
    var loaded := parse(generatedText);
    if loaded.None? {
      return Err(ParseFailed);
    }
    outcome := Check(loaded.value);
  }

  /** `write_news_article`. `replies[i]` is what the model answers to the
      i-th request; `sent` records the requests made. The result is the
      first reply that validates, reached after every earlier reply was
      rejected, and every request is the same message pair. When the
      replies run out without success the result is None (the program
      itself would keep asking). */
  method WriteNewsArticle(instructions: string, description: string, replies: seq<string>,
                          parse: string -> Option<JsonValue>)
    returns (article: Option<map<string, JsonValue>>, index: nat, sent: seq<seq<Message>>)
    ensures index <= |replies|
    ensures forall j :: 0 <= j < index ==> Rejected(parse, replies[j])
    ensures article.Some? ==> index < |replies| && Validate(parse, replies[index]) == Ok(article.value)
    ensures article.Some? ==> Accepted(JObject(article.value))
    ensures article.None? ==> index == |replies|
    ensures |sent| == if article.Some? then index + 1 else index
    ensures forall i :: 0 <= i < |sent| ==> sent[i] == ArticleRequest(instructions, description)
  {
    var messages := ArticleRequest(instructions, description);
    index, sent := 0, [];
    while index < |replies|
      invariant index <= |replies|
      invariant forall j :: 0 <= j < index ==> Rejected(parse, replies[j])
      invariant |sent| == index
      invariant forall i :: 0 <= i < |sent| ==> sent[i] == messages
    {
      sent := sent + [messages];
      var outcome := TryReply(parse, replies[index]);
      if outcome.Ok? {
        article := Some(outcome.value);
        return;
      }
      index := index + 1;
    }
    article := None;
  }
}
