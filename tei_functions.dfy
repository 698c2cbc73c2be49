/** The file-selection helpers of TeiEditions: deciding whether a web path
    names an XML file, and picking an item's first such file. */
module TeiEditionsFunctions {
  import opened PhpBuiltins

  const XmlSuffix: string := ".xml"

  /** `$url`: the path cut at its first '?'. A '?' at index 0 is not a cut,
      because strpos then returns 0, which PHP reads as false. */
  function StripQuery(path: string): (url: string)
    ensures url <= path
    ensures ('?' !in path || path[0] == '?') ==> url == path
    ensures '?' in path && path[0] != '?' ==> '?' !in url && |url| < |path| && path[|url|] == '?'
  {
    match StrPos(path, '?')
    case Some(i) => if i != 0 then path[..i] else path
    case None => path
  }

  /** tei_editions_is_xml_file: whether the path, without its query string,
      ends in exactly ".xml" (case-sensitive). */
  function IsXmlFile(path: string): (r: bool)
    ensures r <==> exists stem :: StripQuery(path) == stem + XmlSuffix
  {
    var url := StripQuery(path);
    var length := |XmlSuffix|;
    var tail := SubstrTail(url, length);
    assert tail == XmlSuffix ==> url == url[..|url| - length] + XmlSuffix;
    assert forall stem :: url == stem + XmlSuffix ==> tail == XmlSuffix;
    tail == XmlSuffix
  }

  /** A query string after a plain path does not change the verdict. */
  lemma QueryStringIgnored(path: string, query: string)
    requires |path| > 0 && '?' !in path
    ensures IsXmlFile(path + "?" + query) == IsXmlFile(path)
  {
    var full := path + "?" + query;
    assert full[|path|] == '?' && full[0] == path[0];
    assert StripQuery(full) == path;
  }

  /** A path whose first character is '?' is checked whole. */
  lemma LeadingQuestionMarkKept(path: string)
    requires |path| > 0 && path[0] == '?'
    ensures IsXmlFile(path) <==> exists stem :: path == stem + XmlSuffix
  {
  }

  /** Without a '?', the verdict is a plain test of the last four characters. */
  lemma PlainPathSuffix(path: string)
    requires '?' !in path
    ensures IsXmlFile(path) <==> |path| >= 4 && path[|path| - 4..] == XmlSuffix
  {
  }

  /** The suffix test is case-sensitive. */
  lemma CaseSensitiveSuffix()
    ensures IsXmlFile("a.xml")
    ensures !IsXmlFile("a.XML")
  {
    PlainPathSuffix("a.xml");
    PlainPathSuffix("a.XML");
    assert "a.XML"[1..] != XmlSuffix by { assert "a.XML"[1..][1] != XmlSuffix[1]; }
  }

  /** The query string is dropped before the suffix test. */
  lemma QueryStringDropped()
    ensures IsXmlFile("a.xml?v")
  {
    QueryStringIgnored("a.xml", "v");
    assert "a.xml" + "?" + "v" == "a.xml?v";
    PlainPathSuffix("a.xml");
  }

  /** A ".xml" inside the query string does not count. */
  lemma SuffixInQueryIgnored()
    ensures !IsXmlFile("a.txt?.xml")
  {
    var path := "a.txt";
    QueryStringIgnored(path, ".xml");
    assert path + "?" + ".xml" == "a.txt?.xml";
    PlainPathSuffix(path);
    assert path[1..][1] != XmlSuffix[1];
  }

  /** A '?' in front is not a query delimiter: the whole path is suffix-checked. */
  lemma LeadingQuestionMarkExample()
    ensures IsXmlFile("?x.xml")
  {
    assert "?x.xml" == "?x" + XmlSuffix;
  }

  /** A path shorter than ".xml" after its query string is cut is never an XML file. */
  lemma ShortPathRejected(path: string)
    requires |StripQuery(path)| < |XmlSuffix|
    ensures !IsXmlFile(path)
  {
  }

  /** tei_editions_get_tei_path: the web path of the item's first file that
      is an XML file, or None (PHP's null) when it has none. */
  method GetTeiPath(paths: seq<string>) returns (r: Option<string>)
    ensures r.Some? ==> exists i :: 0 <= i < |paths| && paths[i] == r.value && IsXmlFile(paths[i])
                                    && forall j :: 0 <= j < i ==> !IsXmlFile(paths[j])
    ensures r.None? <==> forall i :: 0 <= i < |paths| ==> !IsXmlFile(paths[i])
  {
    var i := 0;
    while i < |paths|
      invariant 0 <= i <= |paths|
      invariant forall j :: 0 <= j < i ==> !IsXmlFile(paths[j])
    {
      var path := paths[i];
      if IsXmlFile(path) {
        return Some(path);
      }
      i := i + 1;
    }
    return None;
  }
}
