/** The conversion driver: which DCM files a directory walk yields in each mode, the
    single-file conversion with its precondition and output path, and the counting
    loop that carries on past files whose conversion fails. The file system and the
    service are abstract: what they answer is passed in. */
module Converter {
  import opened Wrappers
  import opened Collections
  import opened FileUtils
  import opened Sdx

  /** The two conversion modes. */
  const AllFiles: string := "0"
  const TargetOnly: string := "1"

  predicate IsMode(mode: string)
  {
    mode == AllFiles || mode == TargetOnly
  }

  function InvalidMode(mode: string): string
  {
    "Invalid mode: " + mode + ". Must be '0' or '1'"
  }

  function MissingDirectory(directory: string): string
  {
    "Directory does not exist: " + directory
  }

  function MissingInput(inputFile: string): string
  {
    "Input file does not exist: " + inputFile
  }

  // ---------------------------------------------------------------- discovery

  predicate IsDcmPath(f: string)
  {
    IdentifyDcm(f).Some?
  }

  /** The walked paths that name DCM files, in walk order. */
  function DcmFiles(walk: seq<string>): (r: seq<string>)
    ensures IsSubsequence(r, walk)
    ensures forall f :: f in r <==> f in walk && IsDcmName(f)
  {
    FilterIsSubsequence(walk, IsDcmPath);
    Filter(walk, IsDcmPath)
  }

  /** What `discover_files` returns for an existing directory whose walk is `walk`:
      every DCM file in mode '0', the DCM files whose base name is a target in mode
      '1', and an error for any other mode. */
  function Discovered(mode: string, targets: seq<string>, walk: seq<string>): (r: Result<seq<string>, string>)
    ensures r.Ok? <==> IsMode(mode)
    ensures r.Err? ==> r.error == "Invalid mode: " + mode
    ensures r.Ok? ==> IsSubsequence(r.value, walk)
    ensures r.Ok? ==> forall f :: f in r.value <==>
                        f in walk && IsDcmName(f) && (mode == TargetOnly ==> Basename(f) in targets)
    ensures mode == AllFiles ==> r == Ok(DcmFiles(walk))
    ensures mode == TargetOnly && targets == [] ==> r == Ok([])
  {
    if mode == AllFiles then Ok(DcmFiles(walk))
    else if mode == TargetOnly then
      var chosen := FilterTargetFiles(DcmFiles(walk), targets);
      SubsequenceTrans(chosen, DcmFiles(walk), walk);
      Ok(chosen)
    else Err("Invalid mode: " + mode)
  }

  /** `discover_files`, the existence check included. */
  function DiscoverOutcome(mode: string, targets: seq<string>, directory: string, present: bool,
                           walk: seq<string>): (r: Result<seq<string>, string>)
    ensures !present ==> r == Err(MissingDirectory(directory))
    ensures present ==> r == Discovered(mode, targets, walk)
  {
    if !present then Err(MissingDirectory(directory)) else Discovered(mode, targets, walk)
  }

  // ---------------------------------------------------------------- one file

  /** What `convert_file` gives for one input: the service's outcome for an existing
      file, written next to it with the `.stl` extension. */
  function FileOutcome(attached: bool, inputFile: string, isFile: bool, state: int, polls: nat): (r: Result<seq<string>, string>)
    ensures !isFile ==> r == Err(MissingInput(inputFile))
    ensures isFile ==> r == ConversionOutcome(attached, inputFile, state, polls)
    ensures r.Ok? <==> attached && isFile && state == 0
  {
    if !isFile then Err(MissingInput(inputFile)) else ConversionOutcome(attached, inputFile, state, polls)
  }

  /** The options the service holds after `convert_file` on one input. */
  function ConfigureStep(options: map<string, string>, attached: bool, isFile: bool, inputFile: string): map<string, string>
  {
    if attached && isFile then
      Configured(options, DefaultInputFormat, DefaultOutputFormat, inputFile, StlOutputPath(inputFile))
    else options
  }

  /** The options after converting every file of `files` in turn. */
  function OptionsAfter(options: map<string, string>, attached: bool, files: seq<string>,
                        isFile: string -> bool): map<string, string>
  {
    if files == [] then options
    else ConfigureStep(OptionsAfter(options, attached, files[..|files| - 1], isFile), attached,
                       isFile(files[|files| - 1]), files[|files| - 1])
  }

  /** Whether converting f raises nothing; `executeState` is what the service's
      `Execute()` returns for each input. */
  function Succeeds(attached: bool, isFile: string -> bool, executeState: string -> int): string -> bool
  {
    f => attached && isFile(f) && executeState(f) == 0
  }

  /** The counted files are exactly those whose conversion raises nothing. */
  lemma SucceedsMeansOk(attached: bool, isFile: string -> bool, executeState: string -> int,
                        polls: string -> nat, f: string)
    ensures Succeeds(attached, isFile, executeState)(f) <==>
              FileOutcome(attached, f, isFile(f), executeState(f), polls(f)).Ok?
  {
  }

  // ---------------------------------------------------------------- counting

  /** The counter counts every file, whatever happened to the files before it: the
      count over a list is the sum of the counts over its parts. */
  lemma ConvertedCountSplit(a: seq<string>, b: seq<string>, ok: string -> bool)
    ensures CountWhere(a + b, ok) == CountWhere(a, ok) + CountWhere(b, ok)
  {
    FilterAppend(a, b, ok);
  }

  /** Every file is counted exactly when every conversion succeeds. */
  lemma {:induction false} AllConverted(files: seq<string>, ok: string -> bool)
    ensures CountWhere(files, ok) == |files| <==> forall i :: 0 <= i < |files| ==> ok(files[i])
  {
    if files != [] {
      var front := files[..|files| - 1];
      AllConverted(front, ok);
      if forall i :: 0 <= i < |files| ==> ok(files[i]) {
        assert forall i :: 0 <= i < |front| ==> ok(front[i]) by {
          forall i | 0 <= i < |front|
            ensures ok(front[i])
          {
            assert front[i] == files[i];
          }
        }
      } else {
        var k :| 0 <= k < |files| && !ok(files[k]);
        if k < |front| {
          assert front[k] == files[k];
          assert CountWhere(front, ok) < |front|;
        }
      }
    }
  }

  /** What `convert_directory` returns, given what discovery gave, whether an attached
      interface was passed in, and what attaching a fresh one gives otherwise. */
  function DirectoryOutcome(discovered: Result<seq<string>, string>, useGiven: bool,
                            isFile: string -> bool, executeState: string -> int,
                            dispatched: Result<Dispatch, string>, attachFailure: Option<string>): (r: Result<nat, string>)
    ensures discovered.Err? ==> r == Err(discovered.error)
    ensures discovered == Ok([]) ==> r == Ok(0)
    ensures r.Ok? ==> discovered.Ok? && r.value <= |discovered.value|
    ensures r.Ok? ==> r.value == CountWhere(discovered.value, Succeeds(true, isFile, executeState))
    ensures discovered.Ok? && discovered.value != [] && useGiven ==> r.Ok?
    ensures r.Err? && discovered.Ok? ==>
              !useGiven && AttachAsWritten(None, dispatched, attachFailure).0 == Err(r.error)
  {
    if discovered.Err? then Err(discovered.error)
    else if discovered.value == [] then Ok(0)
    else if !useGiven && AttachAsWritten(None, dispatched, attachFailure).0.Err? then
      Err(AttachAsWritten(None, dispatched, attachFailure).0.error)
    else Ok(CountWhere(discovered.value, Succeeds(true, isFile, executeState)))
  }

  /** A given interface is used when it is attached; otherwise a fresh one is opened. */
  function ConverterOptionsAfter(old_options: map<string, string>, discovered: Result<seq<string>, string>,
                                 useGiven: bool, isFile: string -> bool): map<string, string>
  {
    if useGiven && discovered.Ok? && discovered.value != [] then OptionsAfter(old_options, true, discovered.value, isFile)
    else old_options
  }

  lemma CountSnoc(files: seq<string>, i: nat, ok: string -> bool)
    requires i < |files|
    ensures CountWhere(files[..i + 1], ok) == CountWhere(files[..i], ok) + (if ok(files[i]) then 1 else 0)
  {
    FilterPrefixSnoc(files, i, ok);
  }

  class DcmConverter {
    /** The conversion mode, '0' or '1' when built by `Create`. */
    var mode: string
    /** The base names converted in mode '1'. */
    var targetFilenames: seq<string>

    constructor(mode: string, targetFilenames: seq<string>)
      ensures this.mode == mode && this.targetFilenames == targetFilenames
    {
      this.mode := mode;
      this.targetFilenames := targetFilenames;
    }

    /** `DCMConverter(mode, target_filenames)`: any mode but '0' and '1' is refused;
        missing targets are the empty list. */
    static method Create(mode: string, targets: Option<seq<string>>) returns (r: Result<DcmConverter, string>)
      ensures r.Err? <==> !IsMode(mode)
      ensures r.Err? ==> r.error == InvalidMode(mode)
      ensures r.Ok? ==> fresh(r.value) && r.value.mode == mode
      ensures r.Ok? ==> r.value.targetFilenames == if targets.None? then [] else targets.value
    {
      if !IsMode(mode) {
        return Err(InvalidMode(mode));
      }
      var c := new DcmConverter(mode, if targets.None? then [] else targets.value);
      r := Ok(c);
    }

    /** `discover_files`: `present` says whether the directory exists and `walk` is the
        list the directory walk produced. */
    method DiscoverFiles(directory: string, present: bool, walk: seq<string>) returns (r: Result<seq<string>, string>)
      ensures r == DiscoverOutcome(mode, targetFilenames, directory, present, walk)
    {
      if !present {
        return Err(MissingDirectory(directory));
      }
      var all: seq<string> := [];
      for i := 0 to |walk|
        invariant all == Filter(walk[..i], IsDcmPath)
      {
        FilterPrefixSnoc(walk, i, IsDcmPath);
        if IdentifyDcm(walk[i]).Some? {
          all := all + [walk[i]];
        }
      }
      assert walk[..|walk|] == walk;
      if mode == AllFiles {
        r := Ok(all);
      } else if mode == TargetOnly {
        r := Ok(FilterTargetFiles(all, targetFilenames));
      } else {
        r := Err("Invalid mode: " + mode);
      }
    }

    /** `convert_file`: `isFile` says whether the input is an existing file, `state`
        and `polls` are what the service answers for it. */
    method ConvertFile(inputFile: string, isFile: bool, sdx: SdxInterface, state: int, polls: nat)
      returns (r: Result<seq<string>, string>)
      modifies sdx
      ensures r == FileOutcome(old(sdx.handle).Some?, inputFile, isFile, state, polls)
      ensures sdx.handle == old(sdx.handle)
      ensures sdx.options == ConfigureStep(old(sdx.options), old(sdx.handle).Some?, isFile, inputFile)
    {
      if !isFile {
        return Err(MissingInput(inputFile));
      }
      var outputFile := StlOutputPath(inputFile);
      r := sdx.ConvertFile(inputFile, outputFile, state, polls);
    }

    /** The loop of `convert_directory`: every file is tried, a failing one is skipped,
        and the result is the number converted. */
    method ConvertAll(files: seq<string>, sdx: SdxInterface, isFile: string -> bool,
                      executeState: string -> int, polls: string -> nat) returns (count: nat)
      modifies sdx
      ensures count == CountWhere(files, Succeeds(old(sdx.handle).Some?, isFile, executeState))
      ensures sdx.handle == old(sdx.handle)
      ensures sdx.options == OptionsAfter(old(sdx.options), old(sdx.handle).Some?, files, isFile)
    {
      ghost var attached := sdx.handle.Some?;
      ghost var options0 := sdx.options;
      ghost var ok := Succeeds(attached, isFile, executeState);
      count := 0;
      for i := 0 to |files|
        invariant sdx.handle == old(sdx.handle)
        invariant count == CountWhere(files[..i], ok)
        invariant sdx.options == OptionsAfter(options0, attached, files[..i], isFile)
      {
        CountSnoc(files, i, ok);
        assert files[..i + 1][..i] == files[..i];
        var outcome := ConvertFile(files[i], isFile(files[i]), sdx, executeState(files[i]), polls(files[i]));
        if outcome.Ok? {
          count := count + 1;
        }
      }
      assert files[..|files|] == files;
    }

    /** `convert_directory`. `given` is the interface passed in, if any; `dispatched`,
        `attachFailure` and `detachRaises` are what the service answers when a fresh
        connection has to be opened. */
    method ConvertDirectory(directory: string, present: bool, walk: seq<string>, given: SdxInterface?,
                            isFile: string -> bool, executeState: string -> int, polls: string -> nat,
                            dispatched: Result<Dispatch, string>, attachFailure: Option<string>, detachRaises: bool)
      returns (r: Result<nat, string>)
      modifies given
      ensures var useGiven := given != null && old(given.handle).Some?;
              r == DirectoryOutcome(DiscoverOutcome(mode, targetFilenames, directory, present, walk), useGiven,
                                    isFile, executeState, dispatched, attachFailure)
      ensures given != null ==> given.handle == old(given.handle)
      ensures given != null ==>
                given.options == ConverterOptionsAfter(old(given.options), DiscoverOutcome(mode, targetFilenames, directory, present, walk),
                                                       old(given.handle).Some?, isFile)
    {
      var found := DiscoverFiles(directory, present, walk);
      if found.Err? {
        r := Err(found.error);
      } else if found.value == [] {
        r := Ok(0);
      } else {
        r := ConvertFound(found.value, given, isFile, executeState, polls, dispatched, attachFailure, detachRaises);
      }
    }

    /** The part of `convert_directory` after a non-empty discovery: the given
        interface when it is attached, else a fresh connection that is closed again. */
    method ConvertFound(list: seq<string>, given: SdxInterface?, isFile: string -> bool,
                        executeState: string -> int, polls: string -> nat,
                        dispatched: Result<Dispatch, string>, attachFailure: Option<string>, detachRaises: bool)
      returns (r: Result<nat, string>)
      requires list != []
      modifies given
      ensures r == DirectoryOutcome(Ok(list), given != null && old(given.handle).Some?,
                                    isFile, executeState, dispatched, attachFailure)
      ensures given != null ==> given.handle == old(given.handle)
      ensures given != null ==>
                given.options == ConverterOptionsAfter(old(given.options), Ok(list), old(given.handle).Some?, isFile)
    {
      if given != null && given.IsAttached() {
        var count := ConvertAll(list, given, isFile, executeState, polls);
        r := Ok(count);
      } else {
        var sdx := new SdxInterface();
        var attached := sdx.Attach(dispatched, attachFailure);
        if attached.Err? {
          r := Err(attached.error);
        } else {
          var count := ConvertAll(list, sdx, isFile, executeState, polls);
          sdx.Detach(detachRaises);
          r := Ok(count);
        }
      }
    }
  }

  /** `convert_directory_simple`: a converter for the mode and targets, run with a
      fresh connection. */
  method ConvertDirectorySimple(directory: string, mode: string, targets: Option<seq<string>>, present: bool,
                                walk: seq<string>, isFile: string -> bool, executeState: string -> int,
                                polls: string -> nat, dispatched: Result<Dispatch, string>,
                                attachFailure: Option<string>, detachRaises: bool)
    returns (r: Result<nat, string>)
    ensures !IsMode(mode) ==> r == Err(InvalidMode(mode))
    ensures IsMode(mode) ==>
              r == DirectoryOutcome(DiscoverOutcome(mode, if targets.None? then [] else targets.value, directory, present, walk),
                                    false, isFile, executeState, dispatched, attachFailure)
  {
    var converter := DcmConverter.Create(mode, targets);
    if converter.Err? {
      return Err(converter.error);
    }
    r := converter.value.ConvertDirectory(directory, present, walk, null, isFile, executeState, polls,
                                          dispatched, attachFailure, detachRaises);
  }
}
