/** Which language files the program fetches and from where: a fixed list
    of codes filtered by the asset index, and content-addressed download
    URLs built from each entry's hash. */
module Languages {
  import opened Wrappers

  /** One object of the asset index: the program reads only its `hash`. */
  datatype AssetObject = AssetObject(hash: string)

  /** The asset index's `objects`, keyed by logical path. */
  type AssetIndex = map<string, AssetObject>

  /** The languages the program asks for, in the order it asks. */
  const LangList: seq<string> := [
    "zh_cn", "zh_hk", "zh_tw", "lzh", "ja_jp", "ko_kr", "vi_vn", "de_de",
    "es_es", "fr_fr", "it_it", "nl_nl", "pt_br", "ru_ru", "th_th", "uk_ua"
  ]

  /** English is not among them: it comes from the archive instead. */
  lemma LangListExcludesEnUs(c: string)
    requires c in LangList
    ensures c != "en_us"
  {
  }

  const LangPrefix: string := "minecraft/lang/"
  const ResourceHost: string := "https://resources.download.minecraft.net/"

  /** The asset-index key of a language. */
  function LangKey(code: string): (key: string)
    ensures |key| == |LangPrefix| + |code| + 5
    ensures key[..|LangPrefix|] == LangPrefix
    ensures key[|LangPrefix|..] == code + ".json"
  {
    LangPrefix + code + ".json"
  }

  /** Reads the language code back out of an asset-index key; keys that
      are not of the form `minecraft/lang/<code>.json` have none. */
  function CodeOfKey(key: string): (r: Option<string>)
    ensures r.Some? ==> LangKey(r.value) == key
  {
    if |key| >= |LangPrefix| + 5 && key[..|LangPrefix|] == LangPrefix && key[|key| - 5..] == ".json"
    then
      var code := key[|LangPrefix|..|key| - 5];
      assert LangKey(code) == key by {
        assert key == key[..|LangPrefix|] + code + key[|key| - 5..];
      }
      Some(code)
    else None
  }

  /** Every code's key reads back as that code. */
  lemma CodeOfKeyLangKey(code: string)
    ensures CodeOfKey(LangKey(code)) == Some(code)
  {
    var key := LangKey(code);
    assert key[|key| - 5..] == ".json";
    assert key[|LangPrefix|..|key| - 5] == code;
  }

  /** Distinct codes have distinct keys, so no two listed languages share
      an index entry. */
  lemma LangKeyInjective(a: string, b: string)
    requires LangKey(a) == LangKey(b)
    ensures a == b
  {
    CodeOfKeyLangKey(a);
    CodeOfKeyLangKey(b);
  }

  /** The codes, in order, whose key the index holds. */
  function SelectLanguages(codes: seq<string>, index: AssetIndex): (r: seq<string>)
    ensures |r| <= |codes|
    ensures forall c :: c in r ==> c in codes && LangKey(c) in index
  {
    if |codes| == 0 then []
    else if LangKey(codes[0]) in index then [codes[0]] + SelectLanguages(codes[1..], index)
    else SelectLanguages(codes[1..], index)
  }

  /** A code is selected exactly when it is listed and its key is present. */
  lemma {:induction false} SelectLanguagesComplete(codes: seq<string>, index: AssetIndex, c: string)
    ensures c in SelectLanguages(codes, index) <==> c in codes && LangKey(c) in index
  {
    if |codes| > 0 {
      SelectLanguagesComplete(codes[1..], index, c);
      assert codes == [codes[0]] + codes[1..];
    }
  }

  /** Selection keeps list order: it distributes over splitting the list. */
  lemma {:induction false} SelectLanguagesAppend(a: seq<string>, b: seq<string>, index: AssetIndex)
    ensures SelectLanguages(a + b, index) == SelectLanguages(a, index) + SelectLanguages(b, index)
  {
    if |a| == 0 {
      assert a + b == b;
    } else {
      assert (a + b)[0] == a[0];
      assert (a + b)[1..] == a[1..] + b;
      SelectLanguagesAppend(a[1..], b, index);
    }
  }

  /** The download URL of an object: the host, the hash's first two
      characters, a slash and the whole hash. A hash shorter than two
      characters makes `substring(0, 2)` throw, so there is no URL. */
  function ResourceUrl(hash: string): (r: Option<string>)
    ensures r.Some? <==> |hash| >= 2
    ensures r.Some? ==> HashOfUrl(r.value) == Some(hash)
  {
    if |hash| < 2 then None
    else
      var u := ResourceHost + hash[..2] + "/" + hash;
      assert u[..|ResourceHost|] == ResourceHost;
      assert u[|ResourceHost| + 3..] == hash;
      Some(u)
  }

  /** Reads a hash back from a resource URL, checking that its directory
      part is the hash's own first two characters. */
  function HashOfUrl(u: string): Option<string> {
    var n := |ResourceHost|;
    if |u| < n + 5 || u[..n] != ResourceHost || u[n + 2] != '/' then None
    else
      var hash := u[n + 3..];
      if u[n..n + 2] == hash[..2] then Some(hash) else None
  }

  /** Distinct hashes give distinct URLs. */
  lemma ResourceUrlInjective(h1: string, h2: string)
    requires ResourceUrl(h1).Some? && ResourceUrl(h1) == ResourceUrl(h2)
    ensures h1 == h2
  {
  }
}
