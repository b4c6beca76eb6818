/**
 * Path strings as the synchroniser uses them (app/services/indexer.py:110-121):
 * the `.html`/`.htm` filter on the scanned files, the source path under the
 * HTML root and the PDF path derived from the relative path.
 *
 * Paths are plain strings with '/' as separator; `Join` is pathlib's `/`
 * on already normalised parts, and `Name`, `Suffix` and `WithSuffix` follow
 * pathlib's `name`, `suffix` and `with_suffix`.
 */
module Paths {

  /** Index of the last `c` in `s`, or -1 (Python's `str.rfind`). */
  function RFind(s: string, c: char): (r: int)
    ensures -1 <= r < |s|
    ensures r >= 0 ==> s[r] == c
    ensures forall j :: r < j < |s| ==> s[j] != c
  {
    if s == [] then -1
    else if s[|s| - 1] == c then |s| - 1
    else RFind(s[..|s| - 1], c)
  }

  /** The final component of a path. */
  function Name(path: string): string
  {
    path[RFind(path, '/') + 1..]
  }

  /**
   * pathlib's `suffix`: the final component from its last '.', unless that
   * dot is the component's first or last character.
   */
  function Suffix(path: string): (r: string)
    ensures |r| <= |path|
  {
    var name := Name(path);
    var i := RFind(name, '.');
    if 0 < i < |name| - 1 then name[i..] else ""
  }

  /** A suffix is a tail of the path's final component and starts with its dot. */
  lemma SuffixShape(path: string)
    ensures var r := Suffix(path);
      && r == path[|path| - |r|..]
      && (r != [] ==> '/' !in r && r[0] == '.')
  {
    var k := RFind(path, '/') + 1;
    var name := path[k..];
    assert Name(path) == name;
    var i := RFind(name, '.');
    if 0 < i < |name| - 1 {
      var r := name[i..];
      assert Suffix(path) == r;
      assert r == path[k + i..];
      forall j | 0 <= j < |r| ensures r[j] != '/' {
        assert r[j] == path[k + i + j];
      }
    }
  }

  /** The path without its suffix. */
  function WithoutSuffix(path: string): string
  {
    path[..|path| - |Suffix(path)|]
  }

  /** pathlib's `with_suffix`: the old suffix, if any, is replaced. */
  function WithSuffix(path: string, suffix: string): string
  {
    WithoutSuffix(path) + suffix
  }

  /** pathlib's `/` between a root and a relative path. */
  function Join(root: string, rel: string): string
  {
    root + "/" + rel
  }

  function AsciiLower(s: string): (r: string)
    ensures |r| == |s|
  {
    if s == [] then []
    else
      var c := s[0];
      var l := if 'A' <= c <= 'Z' then (c as int + 32) as char else c;
      [l] + AsciiLower(s[1..])
  }

  /** The scan filter: `p.suffix.lower() in {".html", ".htm"}`. */
  predicate IsHtml(path: string)
  {
    var s := AsciiLower(Suffix(path));
    s == ".html" || s == ".htm"
  }

  /** No element occurs twice. */
  ghost predicate Distinct<T>(s: seq<T>)
  {
    forall i, j :: 0 <= i < j < |s| ==> s[i] != s[j]
  }

  /** The elements of `s` that `keep` accepts, in order. */
  function Filter<T>(s: seq<T>, keep: T -> bool): (r: seq<T>)
    ensures |r| <= |s|
  {
    if s == [] then []
    else
      var rest := Filter(s[1..], keep);
      if keep(s[0]) then [s[0]] + rest else rest
  }

  lemma {:induction false} FilterMembers<T>(s: seq<T>, keep: T -> bool)
    ensures forall x :: x in Filter(s, keep) <==> x in s && keep(x)
  {
    if s != [] {
      FilterMembers(s[1..], keep);
      assert s == [s[0]] + s[1..];
    }
  }

  lemma FilterMember<T>(s: seq<T>, keep: T -> bool, x: T)
    requires x in Filter(s, keep)
    ensures x in s && keep(x)
  {
    FilterMembers(s, keep);
  }

  /** Filtering keeps the order, so a sequence without repeats gives none. */
  lemma {:induction false} FilterDistinct<T>(s: seq<T>, keep: T -> bool)
    requires Distinct(s)
    ensures Distinct(Filter(s, keep))
  {
    if s != [] {
      var rest := s[1..];
      assert Distinct(rest) by {
        forall i, j | 0 <= i < j < |rest| ensures rest[i] != rest[j] {
          assert rest[i] == s[i + 1] && rest[j] == s[j + 1];
        }
      }
      FilterDistinct(rest, keep);
      if keep(s[0]) {
        var r := [s[0]] + Filter(rest, keep);
        forall j | 0 < j < |r| ensures r[0] != r[j] {
          var y := r[j];
          assert y in Filter(rest, keep);
          FilterMember(rest, keep, y);
          var k :| 0 <= k < |rest| && rest[k] == y;
          assert s[k + 1] == y;
        }
      }
    }
  }

  /**
   * The scanned files that pass the filter, in scan order; the listing is
   * every regular file below the HTML root, relative to it, in the order
   * the synchroniser sorts it.
   */
  function HtmlFiles(listing: seq<string>): seq<string>
  {
    Filter(listing, IsHtml)
  }

  /** The scan keeps exactly the listed files that are HTML. */
  lemma HtmlFilesMembers(listing: seq<string>)
    ensures forall f :: f in HtmlFiles(listing) <==> f in listing && IsHtml(f)
  {
    FilterMembers(listing, IsHtml);
  }

  /** A listing without repeats gives scanned files without repeats. */
  lemma HtmlFilesDistinct(listing: seq<string>)
    requires Distinct(listing)
    ensures Distinct(HtmlFiles(listing))
  {
    FilterDistinct(listing, IsHtml);
  }

  /** `(pdf_root / rel_path).with_suffix(".pdf")`. */
  function PdfPath(pdfRoot: string, rel: string): string
  {
    WithSuffix(Join(pdfRoot, rel), ".pdf")
  }

  lemma RFindAppend(a: string, b: string, c: char)
    ensures c in b ==> RFind(a + b, c) == |a| + RFind(b, c)
    ensures c !in b ==> RFind(a + b, c) == RFind(a, c)
  {
    var r := RFind(a + b, c);
    var ab := a + b;
    if c in b {
      var j := RFind(b, c);
      assert ab[|a| + j] == c;
    } else {
      var i := RFind(a, c);
      forall j | |a| <= j < |ab| ensures ab[j] != c {
        assert ab[j] == b[j - |a|];
      }
      if i >= 0 {
        assert ab[i] == c;
      }
      if r >= 0 && r < |a| {
        assert a[r] == c;
      }
    }
  }

  /** RFind is determined by its contract: the last occurrence. */
  lemma RFindAt(s: string, c: char, i: int)
    requires 0 <= i < |s| && s[i] == c
    requires forall j :: i < j < |s| ==> s[j] != c
    ensures RFind(s, c) == i
  {
  }

  /** Joining a root in front does not change the final component. */
  lemma NameOfJoin(root: string, rel: string)
    ensures Name(Join(root, rel)) == Name(rel)
  {
    var pre := root + "/";
    assert Join(root, rel) == pre + rel;
    RFindAppend(pre, rel, '/');
    if '/' !in rel {
      assert RFind(pre, '/') == |root|;
      assert RFind(rel, '/') == -1;
    }
    assert (pre + rel)[|pre| + RFind(rel, '/') + 1..] == rel[RFind(rel, '/') + 1..];
  }

  /** The HTML filter gives the same answer on a path under a root as on the relative path. */
  lemma IsHtmlOfJoin(root: string, rel: string)
    ensures IsHtml(Join(root, rel)) == IsHtml(rel)
  {
    NameOfJoin(root, rel);
  }

  /**
   * The PDF path mirrors the relative path under the PDF root with only
   * the final suffix replaced by ".pdf".
   */
  lemma PdfPathMirrors(pdfRoot: string, rel: string)
    ensures PdfPath(pdfRoot, rel) == Join(pdfRoot, WithoutSuffix(rel)) + ".pdf"
  {
    NameOfJoin(pdfRoot, rel);
    assert Suffix(Join(pdfRoot, rel)) == Suffix(rel);
    var j := Join(pdfRoot, rel);
    assert j == (pdfRoot + "/") + rel;
    assert WithoutSuffix(j) == (pdfRoot + "/") + rel[..|rel| - |Suffix(rel)|];
  }

  /**
   * Two scanned files share a PDF path exactly when they agree once their
   * suffixes are dropped: `a.html` and `a.htm` render to the same `a.pdf`.
   */
  lemma PdfPathCollision(pdfRoot: string, rel1: string, rel2: string)
    ensures PdfPath(pdfRoot, rel1) == PdfPath(pdfRoot, rel2) <==> WithoutSuffix(rel1) == WithoutSuffix(rel2)
  {
    PdfPathMirrors(pdfRoot, rel1);
    PdfPathMirrors(pdfRoot, rel2);
    var pre := pdfRoot + "/";
    var p1 := pre + WithoutSuffix(rel1) + ".pdf";
    var p2 := pre + WithoutSuffix(rel2) + ".pdf";
    if p1 == p2 {
      assert |WithoutSuffix(rel1)| == |WithoutSuffix(rel2)|;
      assert WithoutSuffix(rel1) == p1[|pre|..|p1| - 4];
      assert WithoutSuffix(rel2) == p2[|pre|..|p2| - 4];
    }
  }

  /** Distinct relative paths give distinct source paths under one root. */
  lemma JoinInjective(root: string, rel1: string, rel2: string)
    ensures Join(root, rel1) == Join(root, rel2) ==> rel1 == rel2
  {
    var pre := root + "/";
    assert Join(root, rel1) == pre + rel1 && Join(root, rel2) == pre + rel2;
    assert (pre + rel1)[|pre|..] == rel1;
    assert (pre + rel2)[|pre|..] == rel2;
  }

  /** Final components and suffixes of paths used in the examples below. */
  lemma SuffixOfNested()
    ensures Name("docs/a.html") == "a.html" && Suffix("docs/a.html") == ".html"
    ensures WithoutSuffix("docs/a.html") == "docs/a"
  {
    RFindAt("docs/a.html", '/', 4);
    RFindAt("a.html", '.', 1);
  }

  /** A nested file keeps its directory under the PDF root. */
  lemma PdfPathNested()
    ensures PdfPath("pdf", "docs/a.html") == "pdf/docs/a.pdf"
  {
    SuffixOfNested();
    PdfPathMirrors("pdf", "docs/a.html");
  }

  /** `a.htm` and `a.html` render to the same PDF. */
  lemma PdfPathHtmHtml()
    ensures PdfPath("pdf", "a.htm") == PdfPath("pdf", "a.html")
  {
    assert RFind("a.htm", '/') == -1;
    RFindAt("a.htm", '.', 1);
    assert WithoutSuffix("a.htm") == "a";
    assert RFind("a.html", '/') == -1;
    RFindAt("a.html", '.', 1);
    assert WithoutSuffix("a.html") == "a";
    PdfPathCollision("pdf", "a.htm", "a.html");
  }

  /** The filter ignores case. */
  lemma IsHtmlUpperCase()
    ensures IsHtml("docs/a.HTML")
  {
    RFindAt("docs/a.HTML", '/', 4);
    assert Name("docs/a.HTML") == "a.HTML";
    RFindAt("a.HTML", '.', 1);
    assert Suffix("docs/a.HTML") == ".HTML";
    assert AsciiLower(".HTML") == ".html";
  }

  /** A name that is only a suffix has none, so it is not scanned. */
  lemma IsHtmlDotName()
    ensures !IsHtml(".html")
  {
    assert RFind(".html", '/') == -1;
    RFindAt(".html", '.', 0);
    assert Suffix(".html") == "";
  }

  lemma IsHtmlOtherSuffix()
    ensures !IsHtml("a.pdf")
  {
    assert RFind("a.pdf", '/') == -1;
    RFindAt("a.pdf", '.', 1);
    assert Suffix("a.pdf") == ".pdf";
    assert AsciiLower(".pdf") == ".pdf";
  }
}
