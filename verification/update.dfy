/** The program's run as a function of what the outside world answers.
    Fetches, archive reading and the SHA-1 function are parameters; files
    are a map from path to bytes; console lines and HTTP requests are an
    event log. */
module Update {
  import opened Wrappers
  import opened Hex
  import opened CaseInsensitive
  import opened VersionLookup
  import opened Languages
  import opened Layout

  type Bytes = seq<int8>
  type FileMap = map<string, Bytes>

  /** A ZIP archive as the entries it contains, by name. */
  type ZipArchive = map<string, Bytes>

  /** The fields the program reads from a version's client manifest. */
  datatype ClientManifest = ClientManifest(assetIndexUrl: string, clientUrl: string, clientSha1: string)

  /** What the outside world answers: the parsed version manifest, the
      parsed documents and raw bytes behind each URL, the entries of an
      archive (None when the bytes are not an archive), and SHA-1. */
  datatype Env = Env(
    manifest: seq<VersionEntry>,
    clientManifestAt: string -> ClientManifest,
    assetIndexAt: string -> AssetIndex,
    download: string -> Bytes,
    openZip: Bytes -> Option<ZipArchive>,
    sha1: Bytes -> Digest)

  /** An HTTP request sent, or a line printed. */
  datatype Event = Request(url: string) | Message(text: string)

  datatype State = State(fs: FileMap, log: seq<Event>)

  /** The exceptions the program's own logic can raise. */
  datatype Crash =
    | UnreadableArchive   // `new ZipFile` on bytes that are not an archive
    | ShortHash(code: string)   // `hash.substring(0, 2)` on a hash shorter than two

  datatype Ending = Done | VersionNotFound | ArchiveMismatch | Crashed(cause: Crash)

  datatype Outcome = Outcome(ending: Ending, st: State)

  const ManifestUrl: string := "https://piston-meta.mojang.com/mc/game/version_manifest_v2.json"
  const TargetVersion: string := "1.13"
  const EnUsEntry: string := "assets/minecraft/lang/en_us.json"
  const NotFoundText: string := "Version not found."
  const ArchiveMismatchText: string := "client.jar SHA1 mismatch!"
  const DoneText: string := "Done. Files are in 'full' directory."

  /** `version.txt` holds the version id, written as UTF-8 ("1.13" is ASCII). */
  const VersionTxtContent: Bytes := [49, 46, 49, 51]

  function MismatchText(code: string): string {
    code + ".json SHA1 mismatch!"
  }

  /** The program's checksum test: the lowercase rendering of the digest
      against the published hash, ignoring case. */
  predicate ChecksumMatches(env: Env, content: Bytes, published: string) {
    EqualsIgnoreCase(HexOf(env.sha1(content)), published)
  }

  /** A published hash passes exactly when it spells the computed digest
      in any mix of upper and lower case. */
  lemma ChecksumIgnoresCase(env: Env, content: Bytes, published: string)
    ensures ChecksumMatches(env, content, published) <==> LowerAll(published) == HexOf(env.sha1(content))
  {
    var h := HexOf(env.sha1(content));
    EqualsIgnoreCaseIffSameLower(h, published);
    assert LowerAll(h) == h;
  }

  /** Any spelling of the digest in upper, lower or mixed case passes. */
  lemma CaseVariantHashAccepted(env: Env, content: Bytes, published: string)
    requires LowerAll(published) == HexOf(env.sha1(content))
    ensures ChecksumMatches(env, content, published)
  {
    ChecksumIgnoresCase(env, content, published);
  }

  /** In particular the all-capitals spelling passes. */
  lemma UpperCaseHashAccepted(env: Env, content: Bytes)
    ensures ChecksumMatches(env, content, UpperAll(HexOf(env.sha1(content))))
  {
    UpperAllMatches(HexOf(env.sha1(content)));
  }

  /** Path `p` is present in both maps with the same bytes, or in neither. */
  predicate Unchanged(before: FileMap, after: FileMap, p: string) {
    (p in before <==> p in after) && (p in before ==> before[p] == after[p])
  }

  // ---------------------------------------------------------------------
  // The run

  function Run(env: Env, fs0: FileMap): Outcome {
    var st := State(fs0[VersionTxt := VersionTxtContent], [Request(ManifestUrl)]);
    match FindVersion(env.manifest, TargetVersion)
    case None => Outcome(VersionNotFound, State(st.fs, st.log + [Message(NotFoundText)]))
    case Some(i) => ProcessRelease(env, env.manifest[i], st)
  }

  /** Everything after the version is found: the two metadata fetches,
      the archive download and check, extraction, languages. */
  function ProcessRelease(env: Env, entry: VersionEntry, st: State): Outcome {
    var cm := env.clientManifestAt(entry.url);
    var index := env.assetIndexAt(cm.assetIndexUrl);
    var st1 := State(st.fs[ClientJarPath := env.download(cm.clientUrl)],
                     st.log + [Request(entry.url), Request(cm.assetIndexUrl), Request(cm.clientUrl)]);
    if !ChecksumMatches(env, st1.fs[ClientJarPath], cm.clientSha1) then
      Outcome(ArchiveMismatch, State(st1.fs, st1.log + [Message(ArchiveMismatchText)]))
    else
      ExtractAndFetch(env, index, st1.fs[ClientJarPath], st1)
  }

  /** The run once the archive's checksum is good: open it, copy out the
      English file if present, delete the archive, fetch the languages. */
  function ExtractAndFetch(env: Env, index: AssetIndex, jar: Bytes, st: State): Outcome {
    match env.openZip(jar)
    case None => Outcome(Crashed(UnreadableArchive), st)
    case Some(zip) => Finish(LanguageLoop(env, index, LangList, State(Extracted(st.fs, zip), st.log)))
  }

  /** The files after extraction: the English file copied out if the
      archive has it, then the archive deleted. */
  function Extracted(fs: FileMap, zip: ZipArchive): (r: FileMap)
    ensures ClientJarPath !in r
    ensures EnUsEntry in zip ==> EnUsPath in r && r[EnUsPath] == zip[EnUsEntry]
    ensures EnUsEntry !in zip ==> Unchanged(fs, r, EnUsPath)
    ensures forall p :: p != EnUsPath && p != ClientJarPath ==> Unchanged(fs, r, p)
  {
    FixedPathsDistinct();
    (if EnUsEntry in zip then fs[EnUsPath := zip[EnUsEntry]] else fs) - {ClientJarPath}
  }

  /** The closing line is printed only when the loop got to its end. */
  function Finish(o: Outcome): Outcome {
    if o.ending.Done? then Outcome(Done, State(o.st.fs, o.st.log + [Message(DoneText)])) else o
  }

  /** One iteration of the language loop. Done means "carry on". */
  function LanguageStep(env: Env, index: AssetIndex, code: string, st: State): (o: Outcome)
    ensures o.ending.Done? || o.ending == Crashed(ShortHash(code))
    ensures o.ending.Crashed? <==> LangKey(code) in index && |index[LangKey(code)].hash| < 2
  {
    var key := LangKey(code);
    if key !in index then Outcome(Done, st)
    else
      var hash := index[key].hash;
      match ResourceUrl(hash)
      case None => Outcome(Crashed(ShortHash(code)), st)
      case Some(url) =>
        var out := OutputPath(code);
        var fs := st.fs[out := env.download(url)];
        var log := st.log + [Request(url)];
        if ChecksumMatches(env, fs[out], hash) then Outcome(Done, State(fs, log))
        else Outcome(Done, State(fs, log + [Message(MismatchText(code))]))
  }

  /** The loop over the codes in order; it ends early exactly when a
      selected code's hash is too short, and then names such a code. */
  function LanguageLoop(env: Env, index: AssetIndex, codes: seq<string>, st: State): (o: Outcome)
    ensures o.ending.Done? || (o.ending.Crashed? && o.ending.cause.ShortHash?)
    ensures o.ending.Done? <==> HashesUsable(codes, index)
    ensures o.ending.Crashed? ==> var c := o.ending.cause.code;
      c in codes && LangKey(c) in index && |index[LangKey(c)].hash| < 2
    decreases |codes|
  {
    if |codes| == 0 then Outcome(Done, st)
    else
      var o := LanguageStep(env, index, codes[0], st);
      assert codes == [codes[0]] + codes[1..];
      if !o.ending.Done? then o else LanguageLoop(env, index, codes[1..], o.st)
  }

  // ---------------------------------------------------------------------
  // Views of the event log

  function Requests(log: seq<Event>): seq<string> {
    if |log| == 0 then []
    else (if log[0].Request? then [log[0].url] else []) + Requests(log[1..])
  }

  function Messages(log: seq<Event>): seq<string> {
    if |log| == 0 then []
    else (if log[0].Message? then [log[0].text] else []) + Messages(log[1..])
  }

  lemma {:induction false} RequestsAppend(a: seq<Event>, b: seq<Event>)
    ensures Requests(a + b) == Requests(a) + Requests(b)
    ensures Messages(a + b) == Messages(a) + Messages(b)
  {
    RequestsOfAppend(a, b);
    MessagesOfAppend(a, b);
  }

  lemma {:induction false} RequestsOfAppend(a: seq<Event>, b: seq<Event>)
    ensures Requests(a + b) == Requests(a) + Requests(b)
  {
    if |a| == 0 {
      assert a + b == b;
    } else {
      var ab := a + b;
      assert ab[0] == a[0];
      assert ab[1..] == a[1..] + b;
      RequestsOfAppend(a[1..], b);
      var head := if a[0].Request? then [a[0].url] else [];
      assert Requests(ab) == head + Requests(ab[1..]);
      assert Requests(a) == head + Requests(a[1..]);
    }
  }

  lemma {:induction false} MessagesOfAppend(a: seq<Event>, b: seq<Event>)
    ensures Messages(a + b) == Messages(a) + Messages(b)
  {
    if |a| == 0 {
      assert a + b == b;
    } else {
      var ab := a + b;
      assert ab[0] == a[0];
      assert ab[1..] == a[1..] + b;
      MessagesOfAppend(a[1..], b);
      var head := if a[0].Message? then [a[0].text] else [];
      assert Messages(ab) == head + Messages(ab[1..]);
      assert Messages(a) == head + Messages(a[1..]);
    }
  }

  // ---------------------------------------------------------------------
  // What the language loop promises

  /** Every listed language the index has carries a hash long enough to
      build its URL. */
  predicate HashesUsable(codes: seq<string>, index: AssetIndex) {
    forall c :: c in codes && LangKey(c) in index ==> |index[LangKey(c)].hash| >= 2
  }

  function UrlOf(index: AssetIndex, code: string): string
    requires LangKey(code) in index && |index[LangKey(code)].hash| >= 2
  {
    ResourceUrl(index[LangKey(code)].hash).value
  }

  /** The URLs of the given selected languages, in order. */
  function UrlsOf(index: AssetIndex, selected: seq<string>): seq<string>
    requires forall c :: c in selected ==> LangKey(c) in index && |index[LangKey(c)].hash| >= 2
  {
    if |selected| == 0 then [] else [UrlOf(index, selected[0])] + UrlsOf(index, selected[1..])
  }

  /** A selected language whose download fails its checksum. */
  predicate Mismatched(env: Env, index: AssetIndex, code: string)
    requires LangKey(code) in index && |index[LangKey(code)].hash| >= 2
  {
    !ChecksumMatches(env, env.download(UrlOf(index, code)), index[LangKey(code)].hash)
  }

  /** The mismatch lines for the given selected languages, in order. */
  function MismatchLines(env: Env, index: AssetIndex, selected: seq<string>): seq<string>
    requires forall c :: c in selected ==> LangKey(c) in index && |index[LangKey(c)].hash| >= 2
  {
    if |selected| == 0 then []
    else (if Mismatched(env, index, selected[0]) then [MismatchText(selected[0])] else [])
         + MismatchLines(env, index, selected[1..])
  }

  /** The files the loop may write: the output paths of selected codes. */
  function LanguagePaths(codes: seq<string>, index: AssetIndex): set<string> {
    set c | c in codes && LangKey(c) in index :: OutputPath(c)
  }

  /** A language whose checksum fails is reported and kept, and the loop
      carries on. */
  lemma LanguageMismatchOnlyLogged(env: Env, index: AssetIndex, code: string, st: State)
    requires LangKey(code) in index && |index[LangKey(code)].hash| >= 2
    requires Mismatched(env, index, code)
    ensures var o := LanguageStep(env, index, code, st);
      && o.ending == Done
      && o.st.fs == st.fs[OutputPath(code) := env.download(UrlOf(index, code))]
      && o.st.log == st.log + [Request(UrlOf(index, code)), Message(MismatchText(code))]
  {
  }

  /** Outcome `o` of the loop over `codes` is a stop at position `k`: the
      code there is the one named, every earlier code has a usable hash, and
      the state is the one the loop reaches over exactly the earlier codes. */
  predicate StopsAt(env: Env, index: AssetIndex, codes: seq<string>, st: State, k: int, o: Outcome) {
    && 0 <= k < |codes|
    && o.ending.Crashed? && o.ending.cause.ShortHash? && codes[k] == o.ending.cause.code
    && HashesUsable(codes[..k], index)
    && o.st == LanguageLoop(env, index, codes[..k], st).st
  }

  /** A stop in the rest of the list, after a first code that carried on,
      is a stop one position later in the whole list. */
  lemma LoopStopShift(env: Env, index: AssetIndex, codes: seq<string>, st: State, k: int)
    requires |codes| > 0
    requires LanguageStep(env, index, codes[0], st).ending.Done?
    requires StopsAt(env, index, codes[1..], LanguageStep(env, index, codes[0], st).st, k,
      LanguageLoop(env, index, codes[1..], LanguageStep(env, index, codes[0], st).st))
    ensures StopsAt(env, index, codes, st, k + 1, LanguageLoop(env, index, codes, st))
  {
    var o0 := LanguageStep(env, index, codes[0], st);
    assert codes[..k + 1] == [codes[0]] + codes[1..][..k];
    assert codes[..k + 1][1..] == codes[1..][..k];
    assert codes[..k + 1][0] == codes[0];
    assert LanguageLoop(env, index, codes[..k + 1], st).st == LanguageLoop(env, index, codes[1..][..k], o0.st).st;
  }

  /** A loop that ends early stops at the FIRST listed code with a short
      hash; everything before it was done in full. */
  lemma {:induction false} LoopCrashFirst(env: Env, index: AssetIndex, codes: seq<string>, st: State)
    ensures var o := LanguageLoop(env, index, codes, st);
      o.ending.Crashed? ==> exists k :: StopsAt(env, index, codes, st, k, o)
  {
    if |codes| > 0 {
      var o0 := LanguageStep(env, index, codes[0], st);
      var o := LanguageLoop(env, index, codes, st);
      if o0.ending.Crashed? {
        assert codes[..0] == [];
        assert StopsAt(env, index, codes, st, 0, o);
      } else if o.ending.Crashed? {
        LoopCrashFirst(env, index, codes[1..], o0.st);
        var k :| StopsAt(env, index, codes[1..], o0.st, k, LanguageLoop(env, index, codes[1..], o0.st));
        LoopStopShift(env, index, codes, st, k);
      }
    }
  }

  /** Files written before a stop stay written: every code listed before
      the one that stopped the loop, if the index has it, holds its download. */
  lemma LoopCrashKeepsEarlierFiles(env: Env, index: AssetIndex, codes: seq<string>, st: State, k: int, c: string)
    requires StopsAt(env, index, codes, st, k, LanguageLoop(env, index, codes, st))
    requires c in codes[..k] && LangKey(c) in index
    ensures var fs := LanguageLoop(env, index, codes, st).st.fs;
      OutputPath(c) in fs && fs[OutputPath(c)] == env.download(UrlOf(index, c))
  {
    LoopWrites(env, index, codes[..k], st, c);
  }

  /** When a listed code in the index has a too-short hash, the loop and
      closing line crash at the first such code, after writing the file of
      every earlier code in the index. */
  lemma FinishCrashKeepsEarlierFiles(env: Env, index: AssetIndex, codes: seq<string>, st: State)
    requires !HashesUsable(codes, index)
    ensures var o := Finish(LanguageLoop(env, index, codes, st));
      && o.ending.Crashed?
      && exists k ::
           && 0 <= k < |codes| && codes[k] == o.ending.cause.code
           && HashesUsable(codes[..k], index)
           && forall c :: c in codes[..k] && LangKey(c) in index ==>
                OutputPath(c) in o.st.fs && o.st.fs[OutputPath(c)] == env.download(UrlOf(index, c))
  {
    LoopCrashFirst(env, index, codes, st);
    var k :| StopsAt(env, index, codes, st, k, LanguageLoop(env, index, codes, st));
    forall c | c in codes[..k] && LangKey(c) in index
      ensures var fs := LanguageLoop(env, index, codes, st).st.fs;
        OutputPath(c) in fs && fs[OutputPath(c)] == env.download(UrlOf(index, c))
    {
      LoopCrashKeepsEarlierFiles(env, index, codes, st, k, c);
    }
  }

  /** The loop touches no file but the output paths of selected codes,
      whether or not it ends early. */
  lemma {:induction false} LoopFrame(env: Env, index: AssetIndex, codes: seq<string>, st: State, p: string)
    requires p !in LanguagePaths(codes, index)
    ensures Unchanged(st.fs, LanguageLoop(env, index, codes, st).st.fs, p)
  {
    if |codes| > 0 {
      var o := LanguageStep(env, index, codes[0], st);
      assert codes[0] in codes;
      assert Unchanged(st.fs, o.st.fs, p);
      if o.ending.Done? {
        assert LanguagePaths(codes[1..], index) <= LanguagePaths(codes, index);
        LoopFrame(env, index, codes[1..], o.st, p);
      }
    }
  }

  /** The events one iteration logs for a selected language. */
  function StepEvents(env: Env, index: AssetIndex, c: string): seq<Event>
    requires LangKey(c) in index && |index[LangKey(c)].hash| >= 2
  {
    if Mismatched(env, index, c) then [Request(UrlOf(index, c)), Message(MismatchText(c))]
    else [Request(UrlOf(index, c))]
  }

  /** What one iteration adds to the log, seen as requests and lines. */
  lemma StepLog(env: Env, index: AssetIndex, c: string, st: State)
    requires LangKey(c) in index && |index[LangKey(c)].hash| >= 2
    ensures var o := LanguageStep(env, index, c, st);
      && o.ending == Done
      && Requests(o.st.log) == Requests(st.log) + [UrlOf(index, c)]
      && Messages(o.st.log) == Messages(st.log) + (if Mismatched(env, index, c) then [MismatchText(c)] else [])
  {
    var extra := StepEvents(env, index, c);
    assert LanguageStep(env, index, c, st).st.log == st.log + extra;
    RequestsAppend(st.log, extra);
    assert Requests([]) == [] && Messages([]) == [];
    var tail := extra[1..];
    assert Requests(tail) == [] && Messages(tail) == (if Mismatched(env, index, c) then [MismatchText(c)] else []) by {
      if |tail| == 1 {
        assert tail[1..] == [];
      }
    }
  }

  /** With usable hashes the loop reaches its end; its requests are
      exactly the URLs of the selected languages in list order, and its
      lines are the mismatch reports of those languages whose download
      fails its checksum. */
  lemma LoopRequests(env: Env, index: AssetIndex, codes: seq<string>, st: State)
    requires HashesUsable(codes, index)
    ensures var o := LanguageLoop(env, index, codes, st);
      && o.ending == Done
      && Requests(o.st.log) == Requests(st.log) + UrlsOf(index, SelectLanguages(codes, index))
      && Messages(o.st.log) == Messages(st.log) + MismatchLines(env, index, SelectLanguages(codes, index))
  {
    LoopRequestsOnly(env, index, codes, st);
    LoopMessagesOnly(env, index, codes, st);
  }

  lemma {:induction false} LoopRequestsOnly(env: Env, index: AssetIndex, codes: seq<string>, st: State)
    requires HashesUsable(codes, index)
    ensures Requests(LanguageLoop(env, index, codes, st).st.log)
      == Requests(st.log) + UrlsOf(index, SelectLanguages(codes, index))
  {
    if |codes| > 0 {
      var c := codes[0];
      var rest := codes[1..];
      assert c in codes;
      var o := LanguageStep(env, index, c, st);
      assert HashesUsable(rest, index) by {
        forall x | x in rest ensures x in codes { }
      }
      LoopRequestsOnly(env, index, rest, o.st);
      if LangKey(c) in index {
        StepLog(env, index, c, st);
        var sel := SelectLanguages(rest, index);
        assert SelectLanguages(codes, index) == [c] + sel;
        assert ([c] + sel)[0] == c && ([c] + sel)[1..] == sel;
        assert UrlsOf(index, [c] + sel) == [UrlOf(index, c)] + UrlsOf(index, sel);
      } else {
        assert o == Outcome(Done, st);
      }
    }
  }

  lemma {:induction false} LoopMessagesOnly(env: Env, index: AssetIndex, codes: seq<string>, st: State)
    requires HashesUsable(codes, index)
    ensures Messages(LanguageLoop(env, index, codes, st).st.log)
      == Messages(st.log) + MismatchLines(env, index, SelectLanguages(codes, index))
  {
    if |codes| > 0 {
      var c := codes[0];
      var rest := codes[1..];
      assert c in codes;
      var o := LanguageStep(env, index, c, st);
      assert HashesUsable(rest, index) by {
        forall x | x in rest ensures x in codes { }
      }
      LoopMessagesOnly(env, index, rest, o.st);
      if LangKey(c) in index {
        StepLog(env, index, c, st);
        var sel := SelectLanguages(rest, index);
        assert SelectLanguages(codes, index) == [c] + sel;
        assert ([c] + sel)[0] == c && ([c] + sel)[1..] == sel;
        assert MismatchLines(env, index, [c] + sel)
          == (if Mismatched(env, index, c) then [MismatchText(c)] else []) + MismatchLines(env, index, sel);
      } else {
        assert o == Outcome(Done, st);
      }
    }
  }

  /** With usable hashes every selected language's file holds what its
      URL served. */
  lemma {:induction false} LoopWrites(env: Env, index: AssetIndex, codes: seq<string>, st: State, c: string)
    requires HashesUsable(codes, index)
    requires c in codes && LangKey(c) in index
    ensures var fs := LanguageLoop(env, index, codes, st).st.fs;
      OutputPath(c) in fs && fs[OutputPath(c)] == env.download(UrlOf(index, c))
  {
    var o := LanguageStep(env, index, codes[0], st);
    assert HashesUsable(codes[1..], index) by {
      forall x | x in codes[1..] ensures x in codes { }
    }
    if c in codes[1..] {
      LoopWrites(env, index, codes[1..], o.st, c);
    } else {
      assert c == codes[0];
      if OutputPath(c) in LanguagePaths(codes[1..], index) {
        var c' :| c' in codes[1..] && LangKey(c') in index && OutputPath(c') == OutputPath(c);
        OutputPathInjective(c', c);
        assert false;
      }
      LoopFrame(env, index, codes[1..], o.st, OutputPath(c));
    }
  }

  /** The loop only appends to the log. */
  lemma {:induction false} LoopExtendsLog(env: Env, index: AssetIndex, codes: seq<string>, st: State)
    ensures var o := LanguageLoop(env, index, codes, st);
      |st.log| <= |o.st.log| && o.st.log[..|st.log|] == st.log
  {
    if |codes| > 0 {
      var o := LanguageStep(env, index, codes[0], st);
      assert |st.log| <= |o.st.log| && o.st.log[..|st.log|] == st.log;
      if o.ending.Done? {
        LoopExtendsLog(env, index, codes[1..], o.st);
      }
    }
  }

  /** A listed code's file after the loop and the closing line: its
      download when the index has the code, untouched when it does not. */
  lemma LoopLanguageFile(env: Env, index: AssetIndex, codes: seq<string>, st: State, c: string)
    requires HashesUsable(codes, index)
    requires c in codes
    ensures var fs := Finish(LanguageLoop(env, index, codes, st)).st.fs;
      if LangKey(c) in index then OutputPath(c) in fs && fs[OutputPath(c)] == env.download(UrlOf(index, c))
      else Unchanged(st.fs, fs, OutputPath(c))
  {
    if LangKey(c) in index {
      LoopWrites(env, index, codes, st, c);
    } else {
      if OutputPath(c) in LanguagePaths(codes, index) {
        var c' :| c' in codes && LangKey(c') in index && OutputPath(c') == OutputPath(c);
        OutputPathInjective(c', c);
        assert false;
      }
      LoopFrame(env, index, codes, st, OutputPath(c));
    }
  }

  /** The log of a loop that completes, followed by the closing line. */
  lemma FinishLog(env: Env, index: AssetIndex, codes: seq<string>, st: State)
    requires HashesUsable(codes, index)
    ensures var o := Finish(LanguageLoop(env, index, codes, st));
      && o.ending == Done
      && Requests(o.st.log) == Requests(st.log) + UrlsOf(index, SelectLanguages(codes, index))
      && Messages(o.st.log) == Messages(st.log) + MismatchLines(env, index, SelectLanguages(codes, index)) + [DoneText]
  {
    var o := LanguageLoop(env, index, codes, st);
    LoopRequests(env, index, codes, st);
    RequestsAppend(o.st.log, [Message(DoneText)]);
    assert Requests([Message(DoneText)]) == [] && Messages([Message(DoneText)]) == [DoneText] by {
      assert [Message(DoneText)][1..] == [];
    }
  }

  /** A log of requests only has no printed lines. */
  lemma {:induction false} NoMessages(log: seq<Event>)
    requires forall k :: 0 <= k < |log| ==> log[k].Request?
    ensures Messages(log) == []
  {
    if |log| > 0 {
      NoMessages(log[1..]);
    }
  }

  /** Past the lookup, the run never reports a missing version. */
  lemma ProcessReleaseFindsVersion(env: Env, entry: VersionEntry, st: State)
    ensures ProcessRelease(env, entry, st).ending != VersionNotFound
  {
  }

  /** The loop and the closing line only append to the log. */
  lemma FinishLoopExtendsLog(env: Env, index: AssetIndex, codes: seq<string>, st: State)
    ensures var f := Finish(LanguageLoop(env, index, codes, st)).st.log;
      |st.log| <= |f| && f[..|st.log|] == st.log
  {
    var o := LanguageLoop(env, index, codes, st);
    LoopExtendsLog(env, index, codes, st);
    FinishExtendsLog(o);
    var f := Finish(o).st.log;
    assert f[..|st.log|] == f[..|o.st.log|][..|st.log|];
  }

  lemma FinishExtendsLog(o: Outcome)
    ensures |o.st.log| <= |Finish(o).st.log| && Finish(o).st.log[..|o.st.log|] == o.st.log
  {
  }

  /** Closing the run does not touch the files, so the loop's frame
      carries over to it. */
  lemma FinishFrame(env: Env, index: AssetIndex, codes: seq<string>, st: State, p: string)
    requires p !in LanguagePaths(codes, index)
    ensures Unchanged(st.fs, Finish(LanguageLoop(env, index, codes, st)).st.fs, p)
  {
    LoopFrame(env, index, codes, st, p);
  }

  /** The loop and the closing line never touch `version.txt`. */
  lemma FinishKeepsVersionTxt(env: Env, index: AssetIndex, codes: seq<string>, st: State)
    ensures Unchanged(st.fs, Finish(LanguageLoop(env, index, codes, st)).st.fs, VersionTxt)
  {
    FinishFrame(env, index, codes, st, VersionTxt);
  }

  /** The loop never touches `version.txt`, the archive, or the English
      file when `en_us` is not among its codes. */
  lemma LoopKeepsFixedFiles(env: Env, index: AssetIndex, codes: seq<string>, st: State)
    requires forall c :: c in codes ==> c != "en_us"
    ensures var fs := LanguageLoop(env, index, codes, st).st.fs;
      Unchanged(st.fs, fs, VersionTxt) && Unchanged(st.fs, fs, ClientJarPath) && Unchanged(st.fs, fs, EnUsPath)
  {
    forall p | p == VersionTxt || p == ClientJarPath || p == EnUsPath
      ensures p !in LanguagePaths(codes, index)
    {
      if p in LanguagePaths(codes, index) {
        var c :| c in codes && LangKey(c) in index && OutputPath(c) == p;
        OutputPathAvoids(c);
        assert false;
      }
    }
    LoopFrame(env, index, codes, st, VersionTxt);
    LoopFrame(env, index, codes, st, ClientJarPath);
    LoopFrame(env, index, codes, st, EnUsPath);
  }

  /** From a log with no printed lines, a completed loop prints exactly
      the mismatch lines and the closing line. */
  lemma FinishMessages(env: Env, index: AssetIndex, codes: seq<string>, st: State)
    requires HashesUsable(codes, index)
    requires Messages(st.log) == []
    ensures Messages(Finish(LanguageLoop(env, index, codes, st)).st.log)
      == MismatchLines(env, index, SelectLanguages(codes, index)) + [DoneText]
  {
    FinishLog(env, index, codes, st);
    assert [] + MismatchLines(env, index, SelectLanguages(codes, index)) == MismatchLines(env, index, SelectLanguages(codes, index));
  }
}
