/**
 * The string functions `createMarkdownFile` uses to decide where the
 * converted note and its images go: base name, vault-relative folder,
 * output folder, file paths, and the payload slice of an image string.
 */
module Paths {
  import opened Wrappers
  import Decimal

  const PdfExtension: string := ".pdf"

  predicate EndsWith(s: string, suffix: string) {
    |suffix| <= |s| && s[|s| - |suffix|..] == suffix
  }

  /** The file name with a trailing, case-sensitive `.pdf` removed (regex `/\.pdf$/`). */
  function BaseName(fileName: string): (r: string)
    ensures r <= fileName
    ensures r == fileName <==> !EndsWith(fileName, PdfExtension)
    ensures r != fileName ==> fileName == r + PdfExtension
  {
    if EndsWith(fileName, PdfExtension) then fileName[..|fileName| - |PdfExtension|] else fileName
  }

  lemma BaseNameExamples()
    ensures BaseName("report.pdf") == "report"
    ensures BaseName("report.PDF") == "report.PDF"
    ensures BaseName("a.pdf.pdf") == "a.pdf"
    ensures BaseName("pdf") == "pdf"
  {
    assert EndsWith("report.pdf", PdfExtension);
    assert !EndsWith("report.PDF", PdfExtension) by {
      assert "report.PDF"[6..][1] == 'P';
    }
    assert EndsWith("a.pdf.pdf", PdfExtension);
  }

  predicate OccursAt(s: string, pat: string, i: nat) {
    i + |pat| <= |s| && s[i..i + |pat|] == pat
  }

  /** The least index at or after `from` where `pat` occurs in `s`. */
  function IndexOfFrom(s: string, pat: string, from: nat): (r: Option<nat>)
    requires from <= |s|
    ensures r.Some? ==> from <= r.value && OccursAt(s, pat, r.value)
    ensures r.Some? ==> forall j :: from <= j < r.value ==> !OccursAt(s, pat, j)
    ensures r.None? ==> forall j :: from <= j <= |s| ==> !OccursAt(s, pat, j)
    decreases |s| - from
  {
    if OccursAt(s, pat, from) then Some(from)
    else if from == |s| then None
    else IndexOfFrom(s, pat, from + 1)
  }

  /** `s.indexOf(pat)`, undefined instead of -1. */
  function IndexOf(s: string, pat: string): Option<nat> {
    IndexOfFrom(s, pat, 0)
  }

  /**
   * `s.replace(pat, "")` with a string pattern: only the FIRST occurrence of
   * `pat` is removed, wherever it is; with no occurrence `s` is unchanged.
   */
  function RemoveFirst(s: string, pat: string): (r: string)
    ensures IndexOf(s, pat).None? ==> r == s
    ensures IndexOf(s, pat).Some? ==>
      var i := IndexOf(s, pat).value;
      i <= |r| && s == r[..i] + pat + r[i..]
  {
    match IndexOf(s, pat)
    case None => s
    case Some(i) =>
      var r := s[..i] + s[i + |pat|..];
      assert r[..i] == s[..i] && r[i..] == s[i + |pat|..];
      assert s == s[..i] + s[i..i + |pat|] + s[i + |pat|..];
      r
  }

  /** When the pattern is a prefix, removing its first occurrence removes that prefix. */
  lemma RemoveFirstOfPrefix(s: string, pat: string)
    requires pat <= s
    ensures RemoveFirst(s, pat) == s[|pat|..]
  {
    assert OccursAt(s, pat, 0);
  }

  /** A pattern longer than the string never occurs, so nothing is removed. */
  lemma RemoveFirstOfLonger(s: string, pat: string)
    requires |s| < |pat|
    ensures RemoveFirst(s, pat) == s
  {
  }

  /** `s.replace(/^\/+/, "")`: every leading `/` is removed and nothing else. */
  function StripLeadingSlashes(s: string): (r: string)
    ensures |r| <= |s| && s[|s| - |r|..] == r
    ensures forall k :: 0 <= k < |s| - |r| ==> s[k] == '/'
    ensures r == [] || r[0] != '/'
  {
    if s != [] && s[0] == '/' then StripLeadingSlashes(s[1..]) else s
  }

  /**
   * The folder relative to the vault: the first occurrence of the vault root
   * removed, then the leading slashes. It never starts with `/`.
   */
  function RelativeFolder(folderPath: string, vaultRoot: string): (r: string)
    ensures r == [] || r[0] != '/'
    ensures IndexOf(folderPath, vaultRoot).None? ==> r == StripLeadingSlashes(folderPath)
  {
    StripLeadingSlashes(RemoveFirst(folderPath, vaultRoot))
  }

  /**
   * The folder that receives the note: the relative folder and the base name
   * concatenated with no separator, or the base name alone.
   */
  function OutputFolder(relative: string, baseName: string): (r: string)
    ensures r == relative + baseName
    ensures relative == [] ==> r == baseName
  {
    if relative != [] then relative + baseName else baseName
  }

  /** No separator is inserted: a folder without a trailing `/` runs into the base name. */
  lemma OutputFolderExamples()
    ensures OutputFolder("Notes/", "x") == "Notes/x"
    ensures OutputFolder("", "x") == "x"
    ensures OutputFolder("Notes", "x") == "Notesx"
  {
  }

  /** The default folder `/Conversions/` lies outside any longer vault root. */
  lemma RelativeFolderOfDefault()
    ensures RelativeFolder("/Conversions/", "/home/me/vault") == "Conversions/"
  {
    RemoveFirstOfLonger("/Conversions/", "/home/me/vault");
  }

  /** A folder inside the vault: the root prefix and the slashes after it are removed. */
  lemma RelativeFolderOfVaultPrefix(root: string, rest: string)
    ensures RelativeFolder(root + rest, root) == StripLeadingSlashes(rest)
  {
    RemoveFirstOfPrefix(root + rest, root);
    assert (root + rest)[|root|..] == rest;
  }

  /** The root is removed where it first occurs, even in the middle of the path. */
  lemma RelativeFolderUnanchored()
    ensures RelativeFolder("/a/v/", "/v") == "a/"
  {
    var s, pat := "/a/v/", "/v";
    assert !OccursAt(s, pat, 0) by { assert s[0..2][1] != pat[1]; }
    assert !OccursAt(s, pat, 1) by { assert s[1..3][0] != pat[0]; }
    assert OccursAt(s, pat, 2) by { assert s[2..4] == pat; }
    assert IndexOf(s, pat) == Some(2);
    assert RemoveFirst(s, pat) == "/a/" by { assert s[..2] + s[4..] == "/a/"; }
    assert "/a/"[1..] == "a/";
  }

  /** The path of the converted note inside the output folder. */
  function MarkdownPath(folder: string, baseName: string): string {
    folder + "/" + baseName + ".md"
  }

  /** The path of the image at position `i` of the flattened image list. */
  function ImagePath(folder: string, i: nat): string {
    folder + "/img-" + Decimal.NatToString(i) + ".jpeg"
  }

  /** Images at different positions never share a path. */
  lemma ImagePathInjective(folder: string, i: nat, j: nat)
    requires ImagePath(folder, i) == ImagePath(folder, j)
    ensures i == j
  {
    var a, b := Decimal.NatToString(i), Decimal.NatToString(j);
    var p := ImagePath(folder, i);
    assert |a| == |b|;
    assert p[|folder| + 5..|p| - 5] == a;
    assert ImagePath(folder, j)[|folder| + 5..|p| - 5] == b;
    Decimal.NatToStringInjective(i, j);
  }

  /** The note never lands on an image's path: `.md` against `.jpeg`. */
  lemma MarkdownPathIsNoImagePath(folder: string, baseName: string, i: nat)
    ensures MarkdownPath(folder, baseName) != ImagePath(folder, i)
  {
    var m, p := MarkdownPath(folder, baseName), ImagePath(folder, i);
    assert m[|m| - 1] == 'd' && p[|p| - 1] == 'g';
  }

  /** `s.split(sep)` for a one-character separator: always at least one part. */
  function Split(s: string, sep: char): (parts: seq<string>)
    ensures 1 <= |parts|
    ensures forall k :: 0 <= k < |parts| ==> sep !in parts[k]
    ensures |parts| == 1 <==> sep !in s
  {
    if s == [] then [[]]
    else
      var rest := Split(s[1..], sep);
      if s[0] == sep then [[]] + rest
      else [[s[0]] + rest[0]] + rest[1..]
  }

  /** `parts.join(sep)`. */
  function Join(parts: seq<string>, sep: char): string
    requires 1 <= |parts|
  {
    if |parts| == 1 then parts[0] else parts[0] + [sep] + Join(parts[1..], sep)
  }

  lemma {:induction false} JoinSplit(s: string, sep: char)
    ensures Join(Split(s, sep), sep) == s
  {
    if s != [] {
      JoinSplit(s[1..], sep);
      var rest := Split(s[1..], sep);
      if s[0] == sep {
        assert ([[]] + rest)[1..] == rest;
      } else {
        var parts := Split(s, sep);
        if |rest| == 1 {
          assert parts == [[s[0]] + rest[0]];
        } else {
          assert parts[1..] == rest[1..];
          assert Join(rest, sep) == rest[0] + [sep] + Join(rest[1..], sep);
        }
      }
    }
  }

  lemma {:induction false} SplitJoin(parts: seq<string>, sep: char)
    requires 1 <= |parts|
    requires forall k :: 0 <= k < |parts| ==> sep !in parts[k]
    ensures Split(Join(parts, sep), sep) == parts
  {
    if |parts| == 1 {
      SplitWithout(parts[0], sep);
    } else {
      SplitJoin(parts[1..], sep);
      SplitAfterFirst(parts[0], Join(parts[1..], sep), sep);
      assert [parts[0]] + parts[1..] == parts;
    }
  }

  lemma {:induction false} SplitWithout(s: string, sep: char)
    requires sep !in s
    ensures Split(s, sep) == [s]
  {
    if s != [] {
      SplitWithout(s[1..], sep);
      assert [s[0]] + s[1..] == s;
    }
  }

  /** Splitting at the first separator: the head is the first part. */
  lemma {:induction false} SplitAfterFirst(head: string, tail: string, sep: char)
    requires sep !in head
    ensures Split(head + [sep] + tail, sep) == [head] + Split(tail, sep)
  {
    var s := head + [sep] + tail;
    if head == [] {
      assert s[1..] == tail;
    } else {
      assert s[1..] == head[1..] + [sep] + tail;
      SplitAfterFirst(head[1..], tail, sep);
      assert [head[0]] + head[1..] == head;
    }
  }

  /**
   * `image.split(",")[1]`: the text between the first comma and the next
   * one (or the end); undefined when the image string holds no comma.
   */
  function PayloadOf(image: string): (r: Option<string>)
    ensures r.None? <==> ',' !in image
    ensures r.Some? ==> ',' !in r.value
  {
    var parts := Split(image, ',');
    if 1 < |parts| then Some(parts[1]) else None
  }

  /** A data URL `head,payload` yields its payload. */
  lemma PayloadOfDataUrl(head: string, payload: string)
    requires ',' !in head && ',' !in payload
    ensures PayloadOf(head + "," + payload) == Some(payload)
  {
    SplitAfterFirst(head, payload, ',');
    SplitWithout(payload, ',');
  }

  /** Only the segment up to a second comma is taken, not the rest of the string. */
  lemma PayloadOfStopsAtSecondComma(head: string, payload: string, rest: string)
    requires ',' !in head && ',' !in payload
    ensures PayloadOf(head + "," + payload + "," + rest) == Some(payload)
  {
    var tail := payload + [','] + rest;
    assert head + "," + payload + "," + rest == head + [','] + tail;
    SplitAfterFirst(payload, rest, ',');
    SplitAfterFirst(head, tail, ',');
    var parts := Split(head + [','] + tail, ',');
    assert parts == [head] + ([payload] + Split(rest, ','));
    assert parts[1] == payload;
  }
}
