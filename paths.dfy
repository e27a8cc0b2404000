/** The checks `main` makes on its arguments before any work: the argument
    count, the extension of the image path (isValidExtension) and the name of
    the output directory (getFilenameWithoutExtension).

    A path is a string; its last component is what follows the last '/'
    once trailing slashes are dropped.  The extension of a component is what
    follows its last '.', provided that dot is neither the first character
    (a hidden file such as ".jpg" has no extension) nor the last one. */
module Paths {

  /** The extensions main accepts, each with its leading dot. */
  const AllowedExtensions: set<string> := {".jpg", ".jpeg", ".png", ".tiff", ".pdf"}

  /** main goes on only with exactly one argument after the program name. */
  predicate ArgsAccepted(args: seq<string>)
    ensures ArgsAccepted(args) <==> |args| > 1 && args[1..] == [args[1]]
  {
    |args| == 2
  }

  /** ASCII lower-casing of one character. */
  function LowerChar(c: char): (d: char)
    ensures ('A' <= c <= 'Z') ==> d as int == c as int + 32
    ensures !('A' <= c <= 'Z') ==> d == c
  {
    if 'A' <= c <= 'Z' then (c as int + 32) as char else c
  }

  /** String.lowercased(), on the ASCII letters. */
  function Lower(s: string): (r: string)
    ensures |r| == |s|
    ensures forall i :: 0 <= i < |s| ==> r[i] == LowerChar(s[i])
  {
    seq(|s|, i requires 0 <= i < |s| => LowerChar(s[i]))
  }

  /** The path without its trailing slashes. */
  function StripTrailingSlashes(s: string): string
  {
    if |s| > 0 && s[|s| - 1] == '/' then StripTrailingSlashes(s[..|s| - 1]) else s
  }

  /** The index of the last occurrence of ch in s, or -1 when there is none. */
  function LastIndexOf(s: string, ch: char): (k: int)
    ensures -1 <= k < |s|
  {
    if |s| == 0 then -1 else if s[|s| - 1] == ch then |s| - 1 else LastIndexOf(s[..|s| - 1], ch)
  }

  /** URL.lastPathComponent of a file path: what follows the last '/' once
      the trailing slashes are dropped. */
  function LastComponent(path: string): string
  {
    var s := StripTrailingSlashes(path);
    s[LastIndexOf(s, '/') + 1..]
  }

  /** The index of the last '.' of a component, or -1 when it has none. */
  function LastDot(c: string): int
  {
    LastIndexOf(c, '.')
  }

  /** The last component has an extension: its last dot is an inner one. */
  predicate HasExtension(path: string)
  {
    var c := LastComponent(path);
    0 < LastDot(c) < |c| - 1
  }

  /** URL.pathExtension, without the dot; empty when there is none. */
  function Extension(path: string): string
  {
    var c := LastComponent(path);
    if HasExtension(path) then c[LastDot(c) + 1..] else ""
  }

  /** getFilenameWithoutExtension: the last component without ".<extension>". */
  function FilenameWithoutExtension(path: string): (stem: string)
    ensures stem <= LastComponent(path)
    ensures HasExtension(path) ==> 0 < |stem| < |LastComponent(path)|
  {
    var c := LastComponent(path);
    if HasExtension(path) then c[..LastDot(c)] else c
  }

  /** isValidExtension: the lower-cased extension, with a dot put in front,
      is one of the allowed ones. */
  predicate IsValidExtension(path: string, allowed: set<string>)
    ensures !HasExtension(path) ==> (IsValidExtension(path, allowed) <==> "." in allowed)
  {
    assert !HasExtension(path) ==> "." + Lower(Extension(path)) == ".";
    "." + Lower(Extension(path)) in allowed
  }

  /** ch is at the index LastIndexOf finds, and nowhere after it. */
  lemma {:induction false} LastIndexOfShape(s: string, ch: char)
    ensures LastIndexOf(s, ch) >= 0 ==> s[LastIndexOf(s, ch)] == ch
    ensures forall i :: LastIndexOf(s, ch) < i < |s| ==> s[i] != ch
    decreases |s|
  {
    if |s| > 0 && s[|s| - 1] != ch {
      LastIndexOfShape(s[..|s| - 1], ch);
    }
  }

  /** The last occurrence is the occurrence with none after it (none: k = -1). */
  lemma {:induction false} LastIndexOfIs(s: string, ch: char, k: int)
    requires -1 <= k < |s| && (k >= 0 ==> s[k] == ch)
    requires forall i :: k < i < |s| ==> s[i] != ch
    ensures LastIndexOf(s, ch) == k
    decreases |s|
  {
    if |s| > 0 && k < |s| - 1 {
      LastIndexOfIs(s[..|s| - 1], ch, k);
    }
  }

  /** The last component is the stem, a dot and the extension when there is
      one, and the stem alone otherwise; the extension is empty exactly when
      there is none, and a non-empty last component gives a non-empty
      directory name. */
  lemma SplitRoundTrip(path: string)
    ensures HasExtension(path) ==> FilenameWithoutExtension(path) + "." + Extension(path) == LastComponent(path)
    ensures !HasExtension(path) ==> FilenameWithoutExtension(path) == LastComponent(path) && Extension(path) == ""
    ensures HasExtension(path) <==> Extension(path) != ""
    ensures LastComponent(path) != "" ==> FilenameWithoutExtension(path) != ""
  {
    var c := LastComponent(path);
    var k := LastDot(c);
    LastIndexOfShape(c, '.');
    if 0 < k < |c| - 1 {
      assert c == c[..k] + "." + c[k + 1..];
    }
  }

  /** A path with an allowed extension is accepted exactly when its
      lower-cased extension is one of the five, and never without one. */
  lemma ValidExtensionIff(path: string)
    ensures IsValidExtension(path, AllowedExtensions)
            <==> Lower(Extension(path)) in {"jpg", "jpeg", "png", "tiff", "pdf"}
    ensures !HasExtension(path) ==> !IsValidExtension(path, AllowedExtensions)
  {
    var e := Lower(Extension(path));
    var d := "." + e;
    assert e == d[1..];
    assert ".jpg"[1..] == "jpg" && ".jpeg"[1..] == "jpeg" && ".png"[1..] == "png";
    assert ".tiff"[1..] == "tiff" && ".pdf"[1..] == "pdf";
    if e in {"jpg", "jpeg", "png", "tiff", "pdf"} {
      assert d == ".jpg" || d == ".jpeg" || d == ".png" || d == ".tiff" || d == ".pdf";
    }
    if !HasExtension(path) {
      assert d == ".";
    }
  }

  lemma LowerSlice(s: string, n: nat)
    requires n <= |s|
    ensures Lower(s[..n]) == Lower(s)[..n]
  {
  }

  lemma {:induction false} StripLower(s: string)
    ensures StripTrailingSlashes(Lower(s)) == Lower(StripTrailingSlashes(s))
    decreases |s|
  {
    if |s| > 0 {
      LowerSlice(s, |s| - 1);
      StripLower(s[..|s| - 1]);
    }
  }

  /** Lower-casing does not move a character that is not a letter. */
  lemma {:induction false} LastIndexOfLower(s: string, ch: char)
    requires !('A' <= ch <= 'Z') && !('a' <= ch <= 'z')
    ensures LastIndexOf(Lower(s), ch) == LastIndexOf(s, ch)
    decreases |s|
  {
    if |s| > 0 {
      LowerSlice(s, |s| - 1);
      LastIndexOfLower(s[..|s| - 1], ch);
    }
  }

  lemma LastComponentLower(path: string)
    ensures LastComponent(Lower(path)) == Lower(LastComponent(path))
  {
    StripLower(path);
    var st := StripTrailingSlashes(path);
    LastIndexOfLower(st, '/');
    var k := LastIndexOf(st, '/');
    assert Lower(st)[k + 1..] == Lower(st[k + 1..]);
  }

  /** Lower-casing a path lower-cases its extension and keeps its shape. */
  lemma ExtensionLower(path: string)
    ensures HasExtension(Lower(path)) == HasExtension(path)
    ensures Extension(Lower(path)) == Lower(Extension(path))
  {
    var c := LastComponent(path);
    assert LastComponent(Lower(path)) == Lower(c) by {
      LastComponentLower(path);
    }
    var k := LastDot(c);
    assert LastDot(Lower(c)) == k by {
      LastIndexOfLower(c, '.');
    }
    if 0 < k < |c| - 1 {
      assert Lower(c)[k + 1..] == Lower(c[k + 1..]);
    }
  }

  /** The extension check ignores the case of the path: "photo.JPG" passes
      exactly when "photo.jpg" does. */
  lemma ValidExtensionCaseInsensitive(path: string, allowed: set<string>)
    ensures IsValidExtension(Lower(path), allowed) == IsValidExtension(path, allowed)
  {
    ExtensionLower(path);
    assert Lower(Lower(Extension(path))) == Lower(Extension(path));
  }

  /** A component put after a directory path is its last component. */
  lemma LastComponentAfterDir(dir: string, c: string)
    requires |dir| == 0 || dir[|dir| - 1] == '/'
    requires |c| > 0 && forall i :: 0 <= i < |c| ==> c[i] != '/'
    ensures LastComponent(dir + c) == c
  {
    var p := dir + c;
    assert StripTrailingSlashes(p) == p by {
      assert p[|p| - 1] == c[|c| - 1];
    }
    assert LastIndexOf(p, '/') == |dir| - 1 by {
      assert forall i :: |dir| <= i < |p| ==> p[i] == c[i - |dir|];
      LastIndexOfIs(p, '/', |dir| - 1);
    }
    assert p[|dir|..] == c;
  }

  /** A path ending in a component "<stem>.<ext>" splits back into that
      stem and that extension: the directory is named <stem>. */
  lemma ComposeSplit(dir: string, stem: string, ext: string)
    requires |dir| == 0 || dir[|dir| - 1] == '/'
    requires |stem| > 0 && forall i :: 0 <= i < |stem| ==> stem[i] != '/'
    requires |ext| > 0 && forall i :: 0 <= i < |ext| ==> ext[i] != '/' && ext[i] != '.'
    ensures LastComponent(dir + (stem + "." + ext)) == stem + "." + ext
    ensures Extension(dir + (stem + "." + ext)) == ext
    ensures FilenameWithoutExtension(dir + (stem + "." + ext)) == stem
  {
    var c := stem + "." + ext;
    ComponentParts(stem, ext);
    LastComponentAfterDir(dir, c);
    assert c[|stem| + 1..] == ext && c[..|stem|] == stem;
  }

  lemma ComponentParts(stem: string, ext: string)
    requires forall i :: 0 <= i < |stem| ==> stem[i] != '/'
    requires forall i :: 0 <= i < |ext| ==> ext[i] != '/' && ext[i] != '.'
    ensures var c := stem + "." + ext;
            && (forall i :: 0 <= i < |c| ==> c[i] != '/')
            && LastDot(c) == |stem|
  {
    var c := stem + "." + ext;
    assert forall i :: 0 <= i < |stem| ==> c[i] == stem[i];
    assert forall i :: |stem| < i < |c| ==> c[i] == ext[i - |stem| - 1];
    LastIndexOfIs(c, '.', |stem|);
  }

  /** A component that starts with its only dot, such as ".jpg", is a hidden
      file without extension: it is rejected, and the directory would carry
      the whole name. */
  lemma HiddenFileRejected(dir: string, ext: string)
    requires |dir| == 0 || dir[|dir| - 1] == '/'
    requires |ext| > 0 && forall i :: 0 <= i < |ext| ==> ext[i] != '/' && ext[i] != '.'
    ensures !HasExtension(dir + ("." + ext))
    ensures !IsValidExtension(dir + ("." + ext), AllowedExtensions)
    ensures FilenameWithoutExtension(dir + ("." + ext)) == "." + ext
  {
    var c := "." + ext;
    HiddenComponent(ext);
    LastComponentAfterDir(dir, c);
    ValidExtensionIff(dir + c);
  }

  lemma HiddenComponent(ext: string)
    requires |ext| > 0 && forall i :: 0 <= i < |ext| ==> ext[i] != '/' && ext[i] != '.'
    ensures var c := "." + ext;
            && (forall i :: 0 <= i < |c| ==> c[i] != '/')
            && LastDot(c) == 0
  {
    var c := "." + ext;
    assert forall i :: 0 < i < |c| ==> c[i] == ext[i - 1];
    LastIndexOfIs(c, '.', 0);
  }

  /** An upper-case extension is accepted: "<dir><stem>.JPG", such as
      "photo.JPG", passes the check and makes the directory <stem>. */
  lemma UpperCaseJpgAccepted(dir: string, stem: string)
    requires |dir| == 0 || dir[|dir| - 1] == '/'
    requires |stem| > 0 && forall i :: 0 <= i < |stem| ==> stem[i] != '/'
    ensures IsValidExtension(dir + (stem + ".JPG"), AllowedExtensions)
    ensures FilenameWithoutExtension(dir + (stem + ".JPG")) == stem
  {
    JpgSuffix(stem);
    ComposeSplit(dir, stem, "JPG");
    JpgLowered();
  }

  lemma JpgSuffix(stem: string)
    ensures stem + ".JPG" == stem + "." + "JPG"
  {
  }

  lemma JpgLowered()
    ensures "." + Lower("JPG") in AllowedExtensions
  {
    assert "." + Lower("JPG") == ".jpg";
  }
}
