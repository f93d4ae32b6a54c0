/** The deterministic parts of `src/main.py`: the registry of decorated
    function signatures, its formatting, and the clean-up of an Ollama
    reply in `OllamaLLMPipe.__call__`. */
module MainScript {
  import opened PyStr

  // ---------------------------------------------------------------------
  // OllamaLLMPipe.__call__
  // ---------------------------------------------------------------------

  /** The end-of-turn marker some models append to a reply. */
  const ImEnd: string := "<|im_end|>"

  /** What `__call__` returns for the model's raw `completion`: the
      completion stripped, then one trailing end-of-turn marker removed. */
  function PipeReply(completion: string): string {
    RemoveSuffix(Strip(completion), ImEnd)
  }

  /** The reply is the stripped completion, less one marker exactly when
      the stripped completion ends with it. */
  lemma PipeReplySpec(completion: string)
    ensures var t, r := Strip(completion), PipeReply(completion);
      if EndsWith(t, ImEnd) then r + ImEnd == t else r == t
  {
  }

  /** Only one marker is removed: a doubled marker leaves one behind. */
  lemma PipeReplyRemovesOneMarker(completion: string)
    requires EndsWith(Strip(completion), ImEnd + ImEnd)
    ensures EndsWith(PipeReply(completion), ImEnd)
  {
    var t, r := Strip(completion), PipeReply(completion);
    var n := |ImEnd|;
    assert t[|t| - 2 * n..] == ImEnd + ImEnd;
    assert EndsWith(t, ImEnd) by {
      assert t[|t| - n..] == (ImEnd + ImEnd)[n..];
    }
    assert r == t[..|t| - n];
    assert r[|r| - n..] == t[|t| - 2 * n..|t| - n];
    assert t[|t| - 2 * n..|t| - n] == (ImEnd + ImEnd)[..n];
  }

  /** Stripping happens before the marker is removed, so whitespace that
      stood in front of the marker is kept. */
  lemma PipeReplyKeepsSpaceBeforeMarker()
    ensures PipeReply("ok \n<|im_end|>") == "ok \n"
  {
  }

  // ---------------------------------------------------------------------
  // The signature registry
  // ---------------------------------------------------------------------

  /** The separator `get_formatted_function_signatures` joins with. */
  const Separator: string := ",\n"

  /** The module-level list `function_signatures`. */
  class SignatureRegistry {
    var signatures: seq<string>

    constructor ()
      ensures signatures == []
    {
      signatures := [];
    }

    /** `get_formatted_function_signatures()`: empty for an empty
        registry, the only entry for one, the entries with a separator
        between each two otherwise. */
    function Formatted(): (r: string)
      reads this
      ensures signatures == [] ==> r == []
      ensures |signatures| == 1 ==> r == signatures[0]
      ensures signatures != [] ==>
        |r| == TotalLength(signatures) + (|signatures| - 1) * |Separator|
    {
      JoinLength(signatures, Separator);
      Join(signatures, Separator)
    }

    /** The decorator `store_function_signature`. `name` is
        `func.__name__` and `signature` is the text of
        `inspect.signature(func)`. It appends exactly one entry, keeps the
        earlier ones, and returns a wrapper that gives what `f` gives. */
    method StoreFunctionSignature<A, B>(f: A -> B, name: string, signature: string) returns (wrapper: A -> B)
      modifies this
      ensures signatures == old(signatures) + [name + signature]
      ensures forall x :: wrapper(x) == f(x)
      ensures Formatted() ==
        if old(signatures) == [] then name + signature
        else old(Formatted()) + Separator + name + signature
    {
      JoinSnoc(signatures, name + signature, Separator);
      signatures := signatures + [name + signature];
      wrapper := x => f(x);
    }
  }
}
