/** What a whole run does to the files and the log, branch by branch. */
module RunProperties {
  import opened Wrappers
  import opened VersionLookup
  import opened Languages
  import opened Layout
  import opened Update

  /** The client manifest, asset index and archive bytes of manifest entry `i`. */
  function ClientOf(env: Env, i: nat): ClientManifest
    requires i < |env.manifest|
  {
    env.clientManifestAt(env.manifest[i].url)
  }

  function IndexOf(env: Env, i: nat): AssetIndex
    requires i < |env.manifest|
  {
    env.assetIndexAt(ClientOf(env, i).assetIndexUrl)
  }

  function JarOf(env: Env, i: nat): Bytes
    requires i < |env.manifest|
  {
    env.download(ClientOf(env, i).clientUrl)
  }

  /** The first four requests of a run that finds its version. */
  function FirstRequests(env: Env, i: nat): seq<Event>
    requires i < |env.manifest|
  {
    [Request(ManifestUrl), Request(env.manifest[i].url),
     Request(ClientOf(env, i).assetIndexUrl), Request(ClientOf(env, i).clientUrl)]
  }

  lemma FirstRequestsPrintNothing(env: Env, i: nat)
    requires i < |env.manifest|
    ensures Messages(FirstRequests(env, i)) == []
  {
    NoMessages(FirstRequests(env, i));
  }

  /** The files as they stand once `version.txt` is written. */
  function Initial(fs0: FileMap): FileMap {
    fs0[VersionTxt := VersionTxtContent]
  }

  /** The files and log right after the archive download. */
  function Downloaded(env: Env, fs0: FileMap, i: nat): State
    requires i < |env.manifest|
  {
    State(Initial(fs0)[ClientJarPath := JarOf(env, i)], FirstRequests(env, i))
  }

  /** A run that finds entry `i` checks the archive and either stops or
      goes on to extraction. */
  lemma RunFound(env: Env, fs0: FileMap, i: nat)
    requires IsFirstMatch(env.manifest, TargetVersion, i)
    ensures Run(env, fs0) ==
      if !ChecksumMatches(env, JarOf(env, i), ClientOf(env, i).clientSha1) then
        Outcome(ArchiveMismatch, State(Downloaded(env, fs0, i).fs, FirstRequests(env, i) + [Message(ArchiveMismatchText)]))
      else ExtractAndFetch(env, IndexOf(env, i), JarOf(env, i), Downloaded(env, fs0, i))
  {
    FirstMatchUnique(env.manifest, TargetVersion, i);
    var st := State(Initial(fs0), [Request(ManifestUrl)]);
    assert Run(env, fs0) == ProcessRelease(env, env.manifest[i], st);
    var cm := ClientOf(env, i);
    assert st.log + [Request(env.manifest[i].url), Request(cm.assetIndexUrl), Request(cm.clientUrl)] == FirstRequests(env, i);
  }

  /** The run ends with "Version not found." exactly when no manifest
      entry has the configured id, and then it has written `version.txt`
      and nothing else and requested only the manifest. */
  lemma RunVersionNotFound(env: Env, fs0: FileMap)
    ensures Run(env, fs0).ending == VersionNotFound
      <==> forall j :: 0 <= j < |env.manifest| ==> env.manifest[j].id != TargetVersion
    ensures Run(env, fs0).ending == VersionNotFound
      ==> Run(env, fs0).st == State(Initial(fs0), [Request(ManifestUrl), Message(NotFoundText)])
  {
    match FindVersion(env.manifest, TargetVersion)
    case None =>
    case Some(i) =>
      ProcessReleaseFindsVersion(env, env.manifest[i], State(Initial(fs0), [Request(ManifestUrl)]));
  }

  /** When the version is found, the run fetches the client manifest of
      the FIRST matching entry, then its asset index, then its archive. */
  lemma RunFetchesFirstMatch(env: Env, fs0: FileMap, i: nat)
    requires IsFirstMatch(env.manifest, TargetVersion, i)
    ensures var log := Run(env, fs0).st.log;
      |log| >= 4 && log[..4] == FirstRequests(env, i)
  {
    RunFound(env, fs0, i);
    var st := Downloaded(env, fs0, i);
    if ChecksumMatches(env, JarOf(env, i), ClientOf(env, i).clientSha1) {
      match env.openZip(JarOf(env, i))
      case None =>
        RunUnreadableArchive(env, fs0, i);
      case Some(zip) =>
        RunAfterExtraction(env, fs0, i, zip);
        FinishLoopExtendsLog(env, IndexOf(env, i), LangList, State(Extracted(st.fs, zip), st.log));
    }
  }

  /** An archive checksum mismatch ends the run at once: the archive
      stays on disk, nothing is extracted, no language is requested and
      no language file is written. */
  lemma RunStopsOnArchiveMismatch(env: Env, fs0: FileMap, i: nat)
    requires IsFirstMatch(env.manifest, TargetVersion, i)
    requires !ChecksumMatches(env, JarOf(env, i), ClientOf(env, i).clientSha1)
    ensures Run(env, fs0) == Outcome(ArchiveMismatch,
      State(Downloaded(env, fs0, i).fs, FirstRequests(env, i) + [Message(ArchiveMismatchText)]))
    ensures var fs := Run(env, fs0).st.fs;
      && Unchanged(fs0, fs, EnUsPath)
      && ClientJarPath in fs
      && forall c :: c in LangList ==> Unchanged(fs0, fs, OutputPath(c))
  {
    RunFound(env, fs0, i);
    FixedPathsDistinct();
    forall c | c in LangList
      ensures Unchanged(fs0, Run(env, fs0).st.fs, OutputPath(c))
    {
      OutputPathAvoids(c);
    }
  }

  /** Archive bytes that do not open as an archive end the run with the
      archive left in place and nothing extracted. */
  lemma RunUnreadableArchive(env: Env, fs0: FileMap, i: nat)
    requires IsFirstMatch(env.manifest, TargetVersion, i)
    requires ChecksumMatches(env, JarOf(env, i), ClientOf(env, i).clientSha1)
    requires env.openZip(JarOf(env, i)).None?
    ensures Run(env, fs0) == Outcome(Crashed(UnreadableArchive), Downloaded(env, fs0, i))
  {
    RunFound(env, fs0, i);
  }

  /** A run past a good checksum is the language loop on the extracted
      files, followed by the closing line when the loop completes. */
  lemma RunAfterExtraction(env: Env, fs0: FileMap, i: nat, zip: ZipArchive)
    requires IsFirstMatch(env.manifest, TargetVersion, i)
    requires ChecksumMatches(env, JarOf(env, i), ClientOf(env, i).clientSha1)
    requires env.openZip(JarOf(env, i)) == Some(zip)
    ensures Run(env, fs0) == Finish(LanguageLoop(env, IndexOf(env, i), LangList,
      State(Extracted(Downloaded(env, fs0, i).fs, zip), FirstRequests(env, i))))
  {
    RunFound(env, fs0, i);
  }

  /** Past a good checksum, `en_us.json` holds the archive's English file
      when the archive has one (whatever was there before) and is left as
      it was otherwise; the archive itself is gone; `version.txt` stays. */
  lemma RunExtractsEnUs(env: Env, fs0: FileMap, i: nat, zip: ZipArchive)
    requires IsFirstMatch(env.manifest, TargetVersion, i)
    requires ChecksumMatches(env, JarOf(env, i), ClientOf(env, i).clientSha1)
    requires env.openZip(JarOf(env, i)) == Some(zip)
    ensures var fs := Run(env, fs0).st.fs;
      && ClientJarPath !in fs
      && VersionTxt in fs && fs[VersionTxt] == VersionTxtContent
      && (EnUsEntry in zip ==> EnUsPath in fs && fs[EnUsPath] == zip[EnUsEntry])
      && (EnUsEntry !in zip ==> Unchanged(fs0, fs, EnUsPath))
  {
    RunAfterExtraction(env, fs0, i, zip);
    FixedPathsDistinct();
    var st := State(Extracted(Downloaded(env, fs0, i).fs, zip), FirstRequests(env, i));
    forall c | c in LangList
      ensures c != "en_us"
    {
      LangListExcludesEnUs(c);
    }
    LoopKeepsFixedFiles(env, IndexOf(env, i), LangList, st);
  }

  /** Past a good checksum and with usable hashes, the run completes, and
      its requests after the archive are exactly the selected languages'
      URLs in list order. */
  lemma RunDownloadsLanguages(env: Env, fs0: FileMap, i: nat, zip: ZipArchive)
    requires IsFirstMatch(env.manifest, TargetVersion, i)
    requires ChecksumMatches(env, JarOf(env, i), ClientOf(env, i).clientSha1)
    requires env.openZip(JarOf(env, i)) == Some(zip)
    requires HashesUsable(LangList, IndexOf(env, i))
    ensures Run(env, fs0).ending == Done
    ensures Requests(Run(env, fs0).st.log)
      == Requests(FirstRequests(env, i)) + UrlsOf(IndexOf(env, i), SelectLanguages(LangList, IndexOf(env, i)))
  {
    var index := IndexOf(env, i);
    var st := State(Extracted(Downloaded(env, fs0, i).fs, zip), FirstRequests(env, i));
    RunAfterExtraction(env, fs0, i, zip);
    FinishLog(env, index, LangList, st);
  }

  /** Past a good checksum and with usable hashes, the run prints the
      mismatch line of each selected language whose download fails its
      checksum, in list order, then the closing line, and nothing else. */
  lemma RunReportsMismatches(env: Env, fs0: FileMap, i: nat, zip: ZipArchive)
    requires IsFirstMatch(env.manifest, TargetVersion, i)
    requires ChecksumMatches(env, JarOf(env, i), ClientOf(env, i).clientSha1)
    requires env.openZip(JarOf(env, i)) == Some(zip)
    requires HashesUsable(LangList, IndexOf(env, i))
    ensures Messages(Run(env, fs0).st.log)
      == MismatchLines(env, IndexOf(env, i), SelectLanguages(LangList, IndexOf(env, i))) + [DoneText]
  {
    var index := IndexOf(env, i);
    var st := State(Extracted(Downloaded(env, fs0, i).fs, zip), FirstRequests(env, i));
    FirstRequestsPrintNothing(env, i);
    FinishMessages(env, index, LangList, st);
    RunAfterExtraction(env, fs0, i, zip);
  }

  /** Past a good checksum and with usable hashes, a listed language's
      file holds what its URL served when the index has the language, and
      is left as it was when the index does not. */
  lemma RunWritesLanguageFile(env: Env, fs0: FileMap, i: nat, zip: ZipArchive, c: string)
    requires IsFirstMatch(env.manifest, TargetVersion, i)
    requires ChecksumMatches(env, JarOf(env, i), ClientOf(env, i).clientSha1)
    requires env.openZip(JarOf(env, i)) == Some(zip)
    requires HashesUsable(LangList, IndexOf(env, i))
    requires c in LangList
    ensures var fs := Run(env, fs0).st.fs;
      if LangKey(c) in IndexOf(env, i) then OutputPath(c) in fs && fs[OutputPath(c)] == env.download(UrlOf(IndexOf(env, i), c))
      else Unchanged(fs0, fs, OutputPath(c))
  {
    RunAfterExtraction(env, fs0, i, zip);
    var st := State(Extracted(Downloaded(env, fs0, i).fs, zip), FirstRequests(env, i));
    LoopLanguageFile(env, IndexOf(env, i), LangList, st, c);
    LangListExcludesEnUs(c);
    OutputPathAvoids(c);
    assert Unchanged(Downloaded(env, fs0, i).fs, Extracted(Downloaded(env, fs0, i).fs, zip), OutputPath(c));
  }

  /** Past a good checksum, the run completes exactly when every selected
      language's hash is long enough for its URL; otherwise it stops at a
      selected language whose hash is too short. */
  lemma RunCompletesIffHashesUsable(env: Env, fs0: FileMap, i: nat, zip: ZipArchive)
    requires IsFirstMatch(env.manifest, TargetVersion, i)
    requires ChecksumMatches(env, JarOf(env, i), ClientOf(env, i).clientSha1)
    requires env.openZip(JarOf(env, i)) == Some(zip)
    ensures Run(env, fs0).ending == Done <==> HashesUsable(LangList, IndexOf(env, i))
    ensures Run(env, fs0).ending.Crashed? ==> var c := Run(env, fs0).ending.cause.code;
      c in LangList && LangKey(c) in IndexOf(env, i) && |IndexOf(env, i)[LangKey(c)].hash| < 2
  {
    RunAfterExtraction(env, fs0, i, zip);
  }

  /** A run whose index has a listed code with a too-short hash crashes,
      and stops at the first such code; by then every earlier code the
      index holds has been downloaded and written. */
  lemma RunCrashKeepsEarlierFiles(env: Env, fs0: FileMap, i: nat, zip: ZipArchive)
    requires IsFirstMatch(env.manifest, TargetVersion, i)
    requires ChecksumMatches(env, JarOf(env, i), ClientOf(env, i).clientSha1)
    requires env.openZip(JarOf(env, i)) == Some(zip)
    requires !HashesUsable(LangList, IndexOf(env, i))
    ensures var o := Run(env, fs0);
      && o.ending.Crashed?
      && exists k ::
           && 0 <= k < |LangList| && LangList[k] == o.ending.cause.code
           && HashesUsable(LangList[..k], IndexOf(env, i))
           && forall c :: c in LangList[..k] && LangKey(c) in IndexOf(env, i) ==>
                OutputPath(c) in o.st.fs && o.st.fs[OutputPath(c)] == env.download(UrlOf(IndexOf(env, i), c))
  {
    var st := State(Extracted(Downloaded(env, fs0, i).fs, zip), FirstRequests(env, i));
    RunAfterExtraction(env, fs0, i, zip);
    FinishCrashKeepsEarlierFiles(env, IndexOf(env, i), LangList, st);
  }

  /** Past a good checksum, a whole run leaves every file it has no business
      with exactly as it found it: anything but `version.txt`, the archive,
      `en_us.json` and the output file of a listed language in the index. */
  lemma RunFrameAfterExtraction(env: Env, fs0: FileMap, i: nat, zip: ZipArchive, p: string)
    requires IsFirstMatch(env.manifest, TargetVersion, i)
    requires ChecksumMatches(env, JarOf(env, i), ClientOf(env, i).clientSha1)
    requires env.openZip(JarOf(env, i)) == Some(zip)
    requires p != VersionTxt && p != ClientJarPath && p != EnUsPath
    requires p !in LanguagePaths(LangList, IndexOf(env, i))
    ensures Unchanged(fs0, Run(env, fs0).st.fs, p)
  {
    var fs1 := Extracted(Downloaded(env, fs0, i).fs, zip);
    assert Unchanged(fs0, Downloaded(env, fs0, i).fs, p);
    assert Unchanged(fs0, fs1, p);
    FinishFrame(env, IndexOf(env, i), LangList, State(fs1, FirstRequests(env, i)), p);
    RunAfterExtraction(env, fs0, i, zip);
  }

  /** Past a good checksum, `version.txt` still holds `1.13`. */
  lemma RunKeepsVersionTxtAfterExtraction(env: Env, fs0: FileMap, i: nat, zip: ZipArchive)
    requires IsFirstMatch(env.manifest, TargetVersion, i)
    requires ChecksumMatches(env, JarOf(env, i), ClientOf(env, i).clientSha1)
    requires env.openZip(JarOf(env, i)) == Some(zip)
    ensures var fs := Run(env, fs0).st.fs;
      VersionTxt in fs && fs[VersionTxt] == VersionTxtContent
  {
    FixedPathsDistinct();
    var fs1 := Extracted(Downloaded(env, fs0, i).fs, zip);
    assert VersionTxt in fs1 && fs1[VersionTxt] == VersionTxtContent;
    FinishKeepsVersionTxt(env, IndexOf(env, i), LangList, State(fs1, FirstRequests(env, i)));
    RunAfterExtraction(env, fs0, i, zip);
  }

  /** A found run leaves `version.txt` holding `1.13` on every branch. */
  lemma RunKeepsVersionTxtFound(env: Env, fs0: FileMap, i: nat)
    requires IsFirstMatch(env.manifest, TargetVersion, i)
    ensures var fs := Run(env, fs0).st.fs;
      VersionTxt in fs && fs[VersionTxt] == VersionTxtContent
  {
    FixedPathsDistinct();
    if !ChecksumMatches(env, JarOf(env, i), ClientOf(env, i).clientSha1) {
      RunStopsOnArchiveMismatch(env, fs0, i);
    } else if env.openZip(JarOf(env, i)).None? {
      RunUnreadableArchive(env, fs0, i);
    } else {
      RunKeepsVersionTxtAfterExtraction(env, fs0, i, env.openZip(JarOf(env, i)).value);
    }
  }

  /** Whatever the manifest, archive and index hold, a run requests the
      manifest first and leaves `version.txt` holding `1.13`: the file is
      written before the lookup and nothing later touches it. */
  lemma RunAlwaysWritesVersionTxt(env: Env, fs0: FileMap)
    ensures var o := Run(env, fs0);
      && VersionTxt in o.st.fs && o.st.fs[VersionTxt] == VersionTxtContent
      && |o.st.log| > 0 && o.st.log[0] == Request(ManifestUrl)
  {
    match FindVersion(env.manifest, TargetVersion)
    case None =>
    case Some(i) =>
      RunFetchesFirstMatch(env, fs0, i);
      assert FirstRequests(env, i)[0] == Request(ManifestUrl);
      RunKeepsVersionTxtFound(env, fs0, i);
  }
}
