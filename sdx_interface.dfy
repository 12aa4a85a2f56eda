/** The wrapper around the conversion service's COM object: the attachment state, the
    conversion call with its polling loop, and the table of error codes. The COM
    object itself is abstract: what it answers is passed in. */
module Sdx {
  import opened Wrappers
  import opened Bytes

  /** The dispatch object of one connection to the service. */
  datatype Dispatch = Dispatch(id: nat)

  const NotAttached: string := "Not attached to SDX. Call attach() first."
  const AttachFailedPrefix: string := "Failed to attach to SDX COM interface: "
  const DefaultInputFormat: string := "3Shape"
  const DefaultOutputFormat: string := "STL"
  const Converting: string := "converting..."

  /** The four options set before every conversion. */
  const InputFormatOption: string := "INPUT_FORMAT"
  const OutputFormatOption: string := "OUTPUT_FORMAT"
  const InputFileOption: string := "INPUT_FILE"
  const OutputFileOption: string := "OUTPUT_FILE"

  // ---------------------------------------------------------------- error codes

  /** The messages of the codes the service documents. */
  const ErrorMessages: map<int, string> := map[
    -1 := "The whole world has gone bonkers",
    1 := "No input file specified",
    2 := "No output file specified",
    3 := "No output format specified",
    4 := "Powershape/Camtek option passed but no voucher given",
    5 := "Can't translate from the input format",
    6 := "Can't translate to the output format",
    7 := "The calling client is not attached",
    8 := "Extract CATIA requested but input file is not CATIA",
    9 := "Extract CATIA requested, input file is CATIA but extraction failed",
    10 := "Decrypt proe requested but input file is not proe",
    11 := "Decrypt proe requested, input file is proe but decryption failed",
    12 := "The passed voucher is invalid for the given input file",
    13 := "No PAF/Flex/Voucher exists for the input file",
    14 := "Input file is the same as the output file"]

  /** The codes with a message of their own are -1 and 1 through 14. */
  lemma KnownCodes(state: int)
    ensures state in ErrorMessages <==> state == -1 || 1 <= state <= 14
  {
    if 1 <= state <= 14 {
      assert state in {1, 2, 3, 4, 5, 6, 7, 8, 9, 10, 11, 12, 13, 14};
    }
  }

  function ErrorPrefix(state: int): string
  {
    "COM Error " + IntString(state) + ": "
  }

  /** `_handle_error`: every message names its code, and unknown codes say so. */
  function HandleError(state: int): (msg: string)
    ensures |ErrorPrefix(state)| <= |msg| && msg[..|ErrorPrefix(state)|] == ErrorPrefix(state)
    ensures state in ErrorMessages ==> msg[|ErrorPrefix(state)|..] == ErrorMessages[state]
    ensures state !in ErrorMessages ==> msg[|ErrorPrefix(state)|..] == "Unknown error code: " + IntString(state)
  {
    var text := if state in ErrorMessages then ErrorMessages[state] else "Unknown error code: " + IntString(state);
    assert (ErrorPrefix(state) + text)[..|ErrorPrefix(state)|] == ErrorPrefix(state);
    ErrorPrefix(state) + text
  }

  /** The text in front of the first colon. */
  function BeforeColon(s: string): string
  {
    if s == [] || s[0] == ':' then [] else [s[0]] + BeforeColon(s[1..])
  }

  lemma {:induction false} BeforeColonOf(s: string, rest: string)
    requires forall i :: 0 <= i < |s| ==> s[i] != ':'
    requires rest != [] && rest[0] == ':'
    ensures BeforeColon(s + rest) == s
  {
    if s != [] {
      assert (s + rest)[1..] == s[1..] + rest;
      BeforeColonOf(s[1..], rest);
    }
  }

  /** The code can be read back off the message. */
  lemma CodeOfMessage(state: int)
    ensures BeforeColon(HandleError(state)[10..]) == IntString(state)
  {
    var s := IntString(state);
    var m := HandleError(state);
    var n := |ErrorPrefix(state)|;
    var text := m[n..];
    assert m == m[..n] + text;
    assert m[10..] == s + (": " + text);
    BeforeColonOf(s, ": " + text);
  }

  /** Different codes give different messages. */
  lemma HandleErrorInjective(a: int, b: int)
    requires HandleError(a) == HandleError(b)
    ensures a == b
  {
    CodeOfMessage(a);
    CodeOfMessage(b);
    IntRoundTrip(a);
    IntRoundTrip(b);
  }

  // ---------------------------------------------------------------- one conversion

  /** n copies of x. */
  function Repeat(x: string, n: nat): (r: seq<string>)
    ensures |r| == n && forall i :: 0 <= i < n ==> r[i] == x
  {
    seq(n, i requires 0 <= i < n => x)
  }

  /** What `convert_file` ends in: the progress messages when the service accepted the
      job and was polled `polls` times before it finished, or the error raised. */
  function ConversionOutcome(attached: bool, inputFile: string, state: int, polls: nat): (r: Result<seq<string>, string>)
    ensures r.Ok? <==> attached && state == 0
    ensures !attached ==> r == Err(NotAttached)
    ensures attached && state != 0 ==> r == Err(HandleError(state))
    ensures r.Ok? ==> |r.value| == polls + 1 && r.value[polls] == "Converted: " + inputFile
    ensures r.Ok? ==> forall i :: 0 <= i < polls ==> r.value[i] == Converting
  {
    if !attached then Err(NotAttached)
    else if state == 0 then Ok(Repeat(Converting, polls) + ["Converted: " + inputFile])
    else Err(HandleError(state))
  }

  /** The options after a conversion was configured: the four set, the rest kept. */
  function Configured(options: map<string, string>, inputFormat: string, outputFormat: string,
                      inputFile: string, outputFile: string): (r: map<string, string>)
    ensures r.Keys == options.Keys + {InputFormatOption, OutputFormatOption, InputFileOption, OutputFileOption}
    ensures r[InputFormatOption] == inputFormat && r[OutputFormatOption] == outputFormat
    ensures r[InputFileOption] == inputFile && r[OutputFileOption] == outputFile
    ensures forall k :: k in options && k !in {InputFormatOption, OutputFormatOption, InputFileOption, OutputFileOption} ==> r[k] == options[k]
  {
    options[InputFormatOption := inputFormat][OutputFormatOption := outputFormat]
           [InputFileOption := inputFile][OutputFileOption := outputFile]
  }

  // ---------------------------------------------------------------- attaching

  /** What `attach` leaves behind, as written: the new dispatch object is stored before
      `Attach()` is called, so a failing `Attach()` still leaves a handle. */
  function AttachAsWritten(handle: Option<Dispatch>, dispatched: Result<Dispatch, string>, failure: Option<string>): (r: (Result<Dispatch, string>, Option<Dispatch>))
    ensures dispatched.Err? ==> r.1 == handle && r.0.Err?
    ensures dispatched.Ok? ==> r.1 == Some(dispatched.value)
    ensures r.0.Ok? <==> dispatched.Ok? && failure.None?
  {
    if dispatched.Err? then (Err(AttachFailedPrefix + dispatched.error), handle)
    else if failure.Some? then (Err(AttachFailedPrefix + failure.value), Some(dispatched.value))
    else (Ok(dispatched.value), Some(dispatched.value))
  }

  /** A failed `Attach()` on a fresh wrapper leaves it reporting itself attached. */
  lemma FailedAttachLooksAttached()
    ensures var r := AttachAsWritten(None, Ok(Dispatch(0)), Some("Attach failed"));
            r.0.Err? && r.1.Some?
  {
  }

  /** `attach` as intended: the handle is kept only once `Attach()` succeeded, and a
      failure leaves the wrapper as it was. */
  function AttachOutcome(handle: Option<Dispatch>, dispatched: Result<Dispatch, string>, failure: Option<string>): (r: (Result<Dispatch, string>, Option<Dispatch>))
    ensures r.0.Ok? <==> dispatched.Ok? && failure.None?
    ensures r.0.Ok? ==> r.1 == Some(r.0.value) && r.0.value == dispatched.value
    ensures r.0.Err? ==> r.1 == handle
    ensures dispatched.Err? ==> r.0 == Err(AttachFailedPrefix + dispatched.error)
    ensures dispatched.Ok? && failure.Some? ==> r.0 == Err(AttachFailedPrefix + failure.value)
  {
    if dispatched.Err? then (Err(AttachFailedPrefix + dispatched.error), handle)
    else if failure.Some? then (Err(AttachFailedPrefix + failure.value), handle)
    else (Ok(dispatched.value), Some(dispatched.value))
  }

  /** After the intended `attach`, the wrapper reports itself attached exactly when it
      succeeded or was attached before. */
  lemma AttachedIffSucceeded(handle: Option<Dispatch>, dispatched: Result<Dispatch, string>, failure: Option<string>)
    ensures AttachOutcome(handle, dispatched, failure).1.Some? <==>
              AttachOutcome(handle, dispatched, failure).0.Ok? || handle.Some?
  {
  }

  /** The two readings of `attach` return the same result and differ only in the handle
      kept after `Attach()` raised. */
  lemma AttachResultsAgree(handle: Option<Dispatch>, dispatched: Result<Dispatch, string>, failure: Option<string>)
    ensures AttachAsWritten(handle, dispatched, failure).0 == AttachOutcome(handle, dispatched, failure).0
    ensures AttachAsWritten(handle, dispatched, failure).1 != AttachOutcome(handle, dispatched, failure).1 <==>
              dispatched.Ok? && failure.Some? && handle != Some(dispatched.value)
  {
  }

  // ---------------------------------------------------------------- the wrapper

  class SdxInterface {
    /** `_sdx`: the dispatch object while attached. */
    var handle: Option<Dispatch>
    /** The options the service was given on the current connection. */
    var options: map<string, string>

    constructor()
      ensures handle == None && options == map[]
    {
      handle := None;
      options := map[];
    }

    /** `is_attached`. */
    predicate IsAttached()
      reads this
    {
      handle.Some?
    }

    /** `attach` as written. `dispatched` is what creating the COM object gave (the
        exception text when that raised) and `failure` what `Attach()` raised, if
        anything. The new object is stored before `Attach()` is called, so a failing
        `Attach()` leaves the wrapper holding it. */
    method Attach(dispatched: Result<Dispatch, string>, failure: Option<string>) returns (r: Result<Dispatch, string>)
      modifies this
      ensures (r, handle) == AttachAsWritten(old(handle), dispatched, failure)
      ensures options == if dispatched.Ok? then map[] else old(options)
      ensures r.Err? && dispatched.Ok? ==> IsAttached()
    {
      if dispatched.Err? {
        return Err(AttachFailedPrefix + dispatched.error);
      }
      handle := Some(dispatched.value);
      options := map[];
      if failure.Some? {
        return Err(AttachFailedPrefix + failure.value);
      }
      r := Ok(dispatched.value);
    }

    /** `detach`: whatever `Detach()` does, the wrapper ends detached; when it was not
        attached nothing happens. */
    method Detach(detachRaises: bool)
      modifies this
      ensures handle == None
      ensures options == old(options)
      ensures old(handle).None? ==> unchanged(this)
    {
      if handle.Some? {
        // an exception from Detach() is swallowed; the handle is dropped either way
        handle := None;
      }
    }

    /** The `sdx` property. */
    function SdxObject(): (r: Result<Dispatch, string>)
      reads this
      ensures r.Ok? <==> IsAttached()
      ensures r.Ok? ==> r.value == handle.value
      ensures r.Err? ==> r.error == NotAttached
    {
      if handle.None? then Err(NotAttached) else Ok(handle.value)
    }

    /** `convert_file`. `state` is what `Execute()` returned and `polls` how often the
        `Finished` property read false before it read true. The result holds the
        messages passed to the progress callback. */
    method ConvertFile(inputFile: string, outputFile: string, state: int, polls: nat,
                       inputFormat: string := DefaultInputFormat, outputFormat: string := DefaultOutputFormat)
      returns (r: Result<seq<string>, string>)
      modifies this
      ensures r == ConversionOutcome(old(handle).Some?, inputFile, state, polls)
      ensures handle == old(handle)
      ensures options == if old(handle).Some? then Configured(old(options), inputFormat, outputFormat, inputFile, outputFile)
                         else old(options)
    {
      if handle.None? {
        return Err(NotAttached);
      }
      options := Configured(options, inputFormat, outputFormat, inputFile, outputFile);
      if state == 0 {
        var messages: seq<string> := [];
        var waited := 0;
        while waited < polls
          invariant waited <= polls && messages == Repeat(Converting, waited)
        {
          messages := messages + [Converting];
          waited := waited + 1;
        }
        r := Ok(messages + ["Converted: " + inputFile]);
      } else {
        r := Err(HandleError(state));
      }
    }
  }
}
