/** Where the program's files go, relative to the working directory:
    `version.txt` beside the `full` directory, and everything else inside
    `full`. */
module Layout {

  const VersionTxt: string := "version.txt"
  const OutputDir: string := "full/"
  const ClientJarPath: string := OutputDir + "client.jar"
  const EnUsPath: string := OutputDir + "en_us.json"
  const JsonSuffix: string := ".json"

  /** The file a downloaded language is written to: `<code>.json` in `full`. */
  function OutputPath(code: string): (p: string)
    ensures |p| == |OutputDir| + |code| + |JsonSuffix|
    ensures p[..|OutputDir|] == OutputDir
    ensures p[|p| - |JsonSuffix|..] == JsonSuffix
  {
    OutputDir + code + JsonSuffix
  }

  /** The language code read back from an output path. */
  function CodeOf(p: string): (code: string)
    requires |p| >= |OutputDir| + |JsonSuffix|
  {
    p[|OutputDir| .. |p| - |JsonSuffix|]
  }

  lemma CodeOfOutputPath(code: string)
    ensures CodeOf(OutputPath(code)) == code
  {
    var p := OutputPath(code);
    assert p == OutputDir + code + JsonSuffix;
    assert p[|OutputDir| .. |p| - |JsonSuffix|] == code;
  }

  /** Two languages never share an output file. */
  lemma OutputPathInjective(a: string, b: string)
    requires OutputPath(a) == OutputPath(b)
    ensures a == b
  {
    CodeOfOutputPath(a);
    CodeOfOutputPath(b);
  }

  /** A language file is never `version.txt`, the archive, or the extracted
      English file unless the code is `en_us`. */
  lemma OutputPathAvoids(code: string)
    ensures OutputPath(code) != VersionTxt
    ensures OutputPath(code) != ClientJarPath
    ensures code != "en_us" ==> OutputPath(code) != EnUsPath
  {
    var p := OutputPath(code);
    assert p[..|OutputDir|] == OutputDir;
    assert p[0] == OutputDir[0] != VersionTxt[0];
    assert p[|p| - 1] == JsonSuffix[|JsonSuffix| - 1] != ClientJarPath[|ClientJarPath| - 1];
    if p == EnUsPath {
      assert EnUsPath == OutputPath("en_us");
      OutputPathInjective(code, "en_us");
    }
  }

  /** The three fixed files are distinct. */
  lemma FixedPathsDistinct()
    ensures VersionTxt != ClientJarPath && VersionTxt != EnUsPath && ClientJarPath != EnUsPath
  {
    assert VersionTxt[0] != ClientJarPath[0] && VersionTxt[0] != EnUsPath[0];
    assert ClientJarPath[|OutputDir|] != EnUsPath[|OutputDir|];
  }
}
