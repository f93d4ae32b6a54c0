# pixiol-generator core, modelled in Dafny

This project models the deterministic core of pixiol-generator. That program asks a
local language model (served by Ollama) for a news article, checks the reply, and uploads
images to the Contentful content store. It covers three parts:

- `InOut.write_news_article` (`in_out.dfy`, module `InOut`). The reply is stripped and
  its line feeds are escaped as backslash-`n`. The result goes to the JSON parser. It is
  accepted when `title`, `header_img_description` and `body` are present and hold
  non-empty strings. Otherwise the loop asks the model again. The model's replies are a
  sequence and `json.loads` is a parameter, so the loop is proved against a
  specification: the article it returns comes from the first reply that validates, and
  every earlier reply was rejected.
- The helpers in `src/main.py` (`main_script.dfy`, module `MainScript`):
  - the clean-up `OllamaLLMPipe.__call__` applies to a completion (strip, then remove one
    `<|im_end|>` marker);
  - the registry behind the `store_function_signature` decorator, a class whose list of
    signatures the decorator appends to;
  - `get_formatted_function_signatures`, which joins that list with `",\n"`.
- `ContentfulUploadAPI` in `src/api_integration/upload.py` (`upload.dfy`, module
  `Upload`):
  - the constructor's fallback to environment variables;
  - the names `upload_asset` gives the asset it creates: the extension after the last
    dot, the content type `image/<ext>`, the file name `<uuid>.<ext>`.

Supporting modules:
- `pystr.dfy` (module `PyStr`) models the Python `str` operations the code uses:
  - `strip()` with Python's whitespace set;
  - `removesuffix`;
  - `join`;
  - `split` with a one-character separator.
- `json.dfy` (module `Json`) models the values `json.loads` returns.
- `wrappers.dfy` (module `Wrappers`) holds `Option` and `Result`.

Where the program's own system prompt and its checks differ, the model follows the
checks:
- The prompt (`src/llm_generator/in_out.py:21`) asks for exactly three keys. A reply is
  accepted when the three keys are *members* of the parsed value, so extra keys are
  allowed (`InOut.ExtraKeysAllowed`).
- Every line feed of the stripped reply is escaped, not only those inside JSON strings.
  Line feeds that stood outside strings become a backslash-`n` outside a string, and the
  parser then rejects the reply.
- `key in loaded_json` follows Python:
  - on a list it tests for an equal element;
  - on a str it tests for a substring;
  - on None, a bool or a number it raises TypeError.
  A list or str that passes this test then fails with TypeError when it is subscripted
  (`InOut.ListOfKeysRejected`).
- A credential that is neither passed nor set in the environment raises KeyError from
  `os.environ[...]`. The constructor's `None in [...]` guard therefore never raises its
  ValueError (`Upload.ResolvedNeverValueError`).

What is a parameter rather than modelled:
- The language model's replies are a sequence of strings, the i-th reply answering the
  i-th request.
- `json.loads` is a function from the prepared text to an optional JSON value.
- `func.__name__` and the text of `inspect.signature(func)` are strings.
- The two `uuid4()` values of `upload_asset` are strings.
- The process environment is a map from names to values.

## Model

| member | source | states |
|---|---|---|
| PyStr.SkipForwardSpec | src/llm_generator/in_out.py:32 | the left scan of `strip()` passes only whitespace and stops at a non-whitespace character or at the end |
| PyStr.SkipBackwardSpec | src/llm_generator/in_out.py:32 | the right scan of `strip()` passes only whitespace and stops just after a non-whitespace character or at the left boundary |
| PyStr.StripSpec | src/llm_generator/in_out.py:32 | `Strip`, which models `s.strip()`, returns a slice of its input with only whitespace before and after it, and the result has whitespace at neither end |
| PyStr.StripAllSpace | src/llm_generator/in_out.py:32 | a string made only of whitespace strips to the empty string |
| PyStr.StripUnique | src/llm_generator/in_out.py:32 | whitespace around a string that has none at its ends is exactly what `strip()` removes |
| PyStr.StripIdempotent | src/main.py:43 | stripping twice gives the same as stripping once |
| PyStr.StripIgnoresPadding | src/main.py:43 | adding whitespace on either side of a string does not change what `strip()` returns |
| PyStr.RemoveSuffix | src/main.py:43 | `removesuffix` cuts one occurrence of a non-empty suffix the string ends with, and otherwise returns the string unchanged |
| PyStr.JoinSnoc | src/main.py:22 | `Join`, which models `sep.join(xs)`: joining a list with one more entry gives the old join, one separator and the new entry (just the entry if the list was empty) |
| PyStr.JoinLength | src/main.py:22 | a non-empty list of n entries joins to their total length plus n - 1 separators |
| PyStr.Split | src/api_integration/upload.py:53 | `split(".")` always returns at least one piece, and no piece contains the separator |
| PyStr.SplitJoin | src/api_integration/upload.py:53 | joining the pieces of a split with the separator gives back the original string |
| InOut.EscapeNewlines | src/llm_generator/in_out.py:33 | after `replace("\n", "\\n")` no line feed is left, and the text is longer by the number of line feeds |
| InOut.EscapeConcat | src/llm_generator/in_out.py:33 | escaping a concatenation gives the concatenation of the escaped parts |
| InOut.EscapeWithoutNewlines | src/llm_generator/in_out.py:33 | text without line feeds comes through escaping unchanged |
| InOut.EscapeKeepsTrimmed | src/llm_generator/in_out.py:32-33 | escaping keeps stripped text free of whitespace at either end |
| InOut.EscapeRoundTrip | src/llm_generator/in_out.py:33 | on text with no backslash, unescaping gives back the text that was escaped |
| InOut.EscapeMergesNewlineAndBackslashN | src/llm_generator/in_out.py:33 | a line feed and a backslash followed by `n` escape to the same text, so escaping cannot be undone in general |
| InOut.PrepareSpec | src/llm_generator/in_out.py:32-33 | `Prepare`, the text given to the parser, holds no line feed and has whitespace at neither end |
| InOut.PrepareIgnoresPadding | src/llm_generator/in_out.py:32-33 | whitespace around a reply, line feeds included, is removed by stripping and never escaped |
| InOut.PrepareDropsOuterNewlines | src/llm_generator/in_out.py:32-33 | the reply `"\n{}\n"` reaches the parser as `{}` |
| InOut.Check | src/llm_generator/in_out.py:35-39 | the three assertions pass exactly when the value is an object whose three expected keys hold non-empty strings, and then the object's fields are returned as they are; the membership test follows Python's `in` through `KeysPresent` |
| InOut.CheckRejections | src/llm_generator/in_out.py:36-38 | None, a bool or a number fails with TypeError; an object missing a key fails the membership assertion; an object with all three keys that is not accepted fails the type or the length assertion; a list or str fails membership or raises TypeError |
| InOut.ListOfKeysRejected | src/llm_generator/in_out.py:36-37 | a list of the three key names passes the membership test of `KeysPresent` and then raises TypeError when it is subscripted |
| InOut.ExtraKeysAllowed | src/llm_generator/in_out.py:35-39 | an accepted object stays accepted, and comes back whole, when it has an extra key |
| InOut.ValidateSpec | src/llm_generator/in_out.py:32-39 | `Validate`, one reply from raw text to outcome, accepts exactly when the prepared text parses to an accepted value, and then returns that value's fields; a parse failure is a rejection |
| InOut.TryReply | src/llm_generator/in_out.py:30-39 | one pass of the `try` block gives the validation outcome of the reply, and an accepted outcome is an object with the three keys holding non-empty strings |
| InOut.WriteNewsArticle | src/llm_generator/in_out.py:12-41 | the article returned is the first reply that validates, and every earlier reply was rejected; each request sent is the same `ArticleRequest` pair of system and human message, and the request count is the number of replies consumed; when the replies run out it returns no article |
| MainScript.PipeReplySpec | src/main.py:43 | `PipeReply`, the value `__call__` returns, is the stripped completion, less one `<|im_end|>` marker exactly when the stripped completion ends with it |
| MainScript.PipeReplyRemovesOneMarker | src/main.py:43 | a completion ending in two markers keeps one of them |
| MainScript.PipeReplyKeepsSpaceBeforeMarker | src/main.py:43 | whitespace in front of the marker is kept, because the strip happens before the marker is removed |
| MainScript.SignatureRegistry.constructor | src/main.py:7 | the signature registry starts empty |
| MainScript.SignatureRegistry.Formatted | src/main.py:21-22 | the formatted list is empty for no signatures, the only signature for one, and otherwise the total length of the signatures plus one separator between each two |
| MainScript.SignatureRegistry.StoreFunctionSignature | src/main.py:10-18 | the decorator appends exactly the name followed by the signature and keeps earlier entries; the formatted list grows by a separator and the new entry; the returned wrapper gives the same result as the function for every argument |
| Upload.ResolvedSpec | src/api_integration/upload.py:36-48 | `Resolved`, the outcome of the credential fallback: construction succeeds exactly when each credential is passed or set in the environment; a passed value is kept, and a missing one takes the environment's value |
| Upload.ResolvedNeverValueError | src/api_integration/upload.py:36-45 | construction never ends in the ValueError; every failure is a KeyError naming one of the three environment variables |
| Upload.Extension | src/api_integration/upload.py:53 | the extension is the text after the last dot of the path, or the whole path when it has no dot, and contains no dot |
| Upload.ContentType | src/api_integration/upload.py:63 | the content type is `image/` followed by the path's extension |
| Upload.FileName | src/api_integration/upload.py:62 | the file name starts with the UUID and a dot, is exactly as long as the UUID, a dot and the extension, and its own extension is the path's extension |
| Upload.ExtensionAfterLastDot | src/api_integration/upload.py:53 | when the text after a dot holds no further dot, that text is the extension |
| Upload.NoDotPathExtension | src/api_integration/upload.py:53 | a path without a dot gives the content type `image/` followed by the whole path |
| Upload.PngNaming | src/api_integration/upload.py:62-63 | a path ending in `.png` with no other dot is uploaded as `image/png` under the name `<uuid>.png` |
| Upload.ContentfulUploadAPI.ClientTokenCounterexample | src/api_integration/upload.py:46 | when the token `cfpat-1` is passed, the client as written is built with the literal `"MANAGEMENT_API_TOKEN"`, not with the resolved token `cfpat-1` |
| Upload.ContentfulUploadAPI.FromCredentials | src/api_integration/upload.py:46-48 | the object keeps the resolved space and environment; its as-written client token is the literal `"MANAGEMENT_API_TOKEN"`, and its corrected client token is the resolved token |
| Upload.ContentfulUploadAPI.Create | src/api_integration/upload.py:36-48 | construction succeeds or fails exactly as the fallback says, with the same error; on success a new object holds the resolved space and environment, the literal as its as-written client token, and the resolved token as its client token, the corrected behaviour of the finding below |
| Upload.ContentfulUploadAPI.AssetRequestFor | src/api_integration/upload.py:52-63 | the asset is created in the object's space and environment under the first UUID; the file name starts with the second UUID and a dot and has the path's extension; the content type names the file name's extension |

## Left out

- The language model calls (`self._llm.invoke`, `self._model(prompt)`, the Ollama
  clients). These are network I/O, so the replies are parameters.
- The internals of `json.loads`. It is a parameter returning a JSON value or nothing.
- InOut.WriteNewsArticle: the source loops forever until a reply passes. The model
  consumes a finite sequence of replies and returns no article when they run out.
- Printing of the exception text on each failed attempt. It is output only.
- Exceptions raised by the language model call itself. They are treated like any other
  rejected reply in the source and are not modelled separately.
- The text of the system prompt in `write_news_article`. The instructions are a
  parameter of `InOut.ArticleRequest`.
- The message classes of the LangChain library. They are modelled as a two-case
  datatype holding their content.
- The top-level script of `src/main.py`: the prompt template with `dedent`, `indent`
  and `format`, the `exec` retry loop and `answer_question`. These run generated code.
- `add` and `subtract_num2_from_num1`. They are floating-point arithmetic; only their
  registration through the decorator is modelled.
- MainScript.SignatureRegistry.StoreFunctionSignature: the wrapper takes a single
  argument of any type rather than `*args, **kwargs`. It does not model
  `functools.wraps` copying the function's metadata. The text of `inspect.signature`
  is a parameter.
- The Contentful SDK calls in `upload_asset`: uploading the file, creating, processing
  and publishing the asset, and reading back its public URL. Opening the local file is
  left out too. These are network and file I/O.
- The randomness of `uuid.uuid4()`. The two values are parameters.
- `src/api_integration/fetch.py`, the image generation and NSFW classification code,
  the data models and the configuration sample. They are not part of this model.
- Strings are sequences of Unicode code points. `strip()` uses Python's whitespace set
  for code points; no normalisation or encoding is modelled.

## Findings

| source | as written | input that shows it | evidently intended | confidence | as-written member | corrected member |
|---|---|---|---|---|---|---|
| src/api_integration/upload.py:46 | the SDK client is built with the literal string `"MANAGEMENT_API_TOKEN"`, not with the token just resolved | any resolved token other than that literal, e.g. `management_api_token = "cfpat-1"`: the client is given `"MANAGEMENT_API_TOKEN"` | the client is built with the resolved `management_api_token` | not executed | Upload.ContentfulUploadAPI.ClientTokenCounterexample | Upload.ContentfulUploadAPI.Create |
