/**
 * src/utils.ts: URL validation and host extraction, footnote identifier
 * formatting and the Markdown file-name check.
 *
 * `new URL(...)` (the URL Standard's basic URL parser) and the body of
 * `extractTextFragment` are not part of this model: they are the two fields of
 * a `UrlApi` value that every operation needing them takes as a parameter.
 */
module Utils {
  import opened Wrappers
  import opened Strings

  /** The two properties of a parsed URL that the source reads. */
  datatype ParsedUrl = ParsedUrl(protocol: string, hostname: string)

  /**
   * `parse(u)` is the URL object `new URL(u)` builds, or None where the
   * constructor throws; `textFragment(u)` is `extractTextFragment(u)`.
   */
  datatype UrlApi = UrlApi(parse: string -> Option<ParsedUrl>, textFragment: string -> Option<string>)

  /** `isValidUrl`: the URL parses and its scheme is http or https; never throws. */
  predicate IsValidUrl(api: UrlApi, url: string) {
    match api.parse(url)
    case Some(u) => u.protocol == "http:" || u.protocol == "https:"
    case None => false
  }

  /** `extractDomain`: the parsed host name, or null when parsing throws. */
  function ExtractDomain(api: UrlApi, url: string): Option<string> {
    match api.parse(url)
    case Some(u) => Some(u.hostname)
    case None => None
  }

  /** `extractTextFragment`: the decoded, escaped `#:~:text=` quotation of a URL, or null. */
  function ExtractTextFragment(api: UrlApi, url: string): Option<string> {
    api.textFragment(url)
  }

  /** Both helpers rest on the same parse: a valid URL always has a domain. */
  lemma ValidUrlHasDomain(api: UrlApi, url: string)
    requires IsValidUrl(api, url)
    ensures ExtractDomain(api, url) == Some(api.parse(url).value.hostname)
  {
  }

  /**
   * The URL Standard's rule for the http and https schemes (section 4.4,
   * host state): such a URL only parses with a non-empty host.
   */
  ghost predicate HostsNonEmpty(api: UrlApi) {
    forall url :: IsValidUrl(api, url) ==> api.parse(url).value.hostname != ""
  }

  /** `generateFootnoteId`: `[^<domain>-<counter>]`. */
  function GenerateFootnoteId(domain: string, counter: nat): string {
    "[^" + domain + "-" + NatToDecimal(counter) + "]"
  }

  /** Distinct (domain, counter) pairs give distinct identifiers. */
  lemma GenerateFootnoteIdInjective(d1: string, n1: nat, d2: string, n2: nat)
    requires GenerateFootnoteId(d1, n1) == GenerateFootnoteId(d2, n2)
    ensures d1 == d2 && n1 == n2
  {
    var s1, s2 := NatToDecimal(n1), NatToDecimal(n2);
    var i1, i2 := d1 + "-" + s1, d2 + "-" + s2;
    assert i1 == GenerateFootnoteId(d1, n1)[2..|GenerateFootnoteId(d1, n1)| - 1];
    assert i2 == GenerateFootnoteId(d2, n2)[2..|GenerateFootnoteId(d2, n2)| - 1];
    assert i1 == i2;
    SeparatorAt(d1, s1, d2, s2);
    assert d1 == i1[..|d1|] == i2[..|d2|] == d2;
    assert s1 == i1[|d1| + 1..] == i2[|d2| + 1..] == s2;
    ParseDecimalOfNatToDecimal(n1);
    ParseDecimalOfNatToDecimal(n2);
  }

  /** The last `-` of `d + "-" + s` is the separator when `s` holds no `-`. */
  lemma SeparatorAt(d1: string, s1: string, d2: string, s2: string)
    requires d1 + "-" + s1 == d2 + "-" + s2
    requires '-' !in s1 && '-' !in s2
    ensures |d1| == |d2|
  {
    var t1, t2 := d1 + "-" + s1, d2 + "-" + s2;
    var m := if |d1| < |d2| then |d2| else |d1|;
    assert m < |t1| && t1[m] == t2[m];
    assert t1[m] == '-' || t2[m] == '-';
  }

  /** `isMarkdownFile`: the lower-cased name ends with `.md`. */
  function IsMarkdownFile(filename: string): (r: bool)
    ensures r <==> |filename| >= 3 && filename[|filename| - 3] == '.'
                   && (filename[|filename| - 2] == 'm' || filename[|filename| - 2] == 'M')
                   && (filename[|filename| - 1] == 'd' || filename[|filename| - 1] == 'D')
  {
    var lower := ToLowerAscii(filename);
    var n := |filename|;
    assert n >= 3 ==> lower[n - 3..] == [lower[n - 3], lower[n - 2], lower[n - 1]];
    EndsWith(lower, ".md")
  }

  /** The file names the source's tests try. */
  lemma IsMarkdownFileExamples()
    ensures IsMarkdownFile("document.md") && IsMarkdownFile("document.MD") && !IsMarkdownFile("document.txt")
  {
  }
}
