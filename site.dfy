/** The two pieces of logic in the site's request handlers (app.py): reading the mods list for
    the About page, and choosing which files of the pictures directory the gallery shows. The
    file system is abstracted: a file or directory that does not exist is None. */
module Site {
  import opened Wrappers
  import opened Strings

  /** One entry of the mods list. */
  datatype Mod = Mod(name: string, version: string)

  /** Position of the last occurrence of `c` in `s`, if any. */
  function LastIndexOf(s: string, c: char): (r: Option<nat>)
    ensures r.None? <==> c !in s
    ensures r.Some? ==> r.value < |s| && s[r.value] == c
    ensures r.Some? ==> forall k :: r.value < k < |s| ==> s[k] != c
  {
    if s == [] then None
    else if s[|s| - 1] == c then Some(|s| - 1)
    else
      var r := LastIndexOf(s[..|s| - 1], c);
      assert s == s[..|s| - 1] + [s[|s| - 1]];
      r
  }

  /** A stripped line split as `line.rsplit(' ', 1)` does: at its last space, with the name
      before it and the version after it; a line without a space is all name. */
  function ParseModLine(line: string): (m: Mod)
    ensures ' ' in line ==> m.name + " " + m.version == line && ' ' !in m.version
    ensures ' ' !in line ==> m == Mod(line, "")
  {
    match LastIndexOf(line, ' ')
    case None => Mod(line, "")
    case Some(i) =>
      assert line == line[..i] + " " + line[i + 1..];
      var version := line[i + 1..];
      assert ' ' !in version by {
        forall k | 0 <= k < |version|
          ensures version[k] != ' '
        {
          assert version[k] == line[i + 1 + k];
        }
      }
      Mod(line[..i], version)
  }

  /** Both halves of a split stripped line are non-empty: the line starts and ends with a
      non-whitespace character, so its last space is neither first nor last. */
  lemma SplitHalvesNonEmpty(line: string)
    requires line != [] && IsTrimmed(line, Python) && ' ' in line
    ensures ParseModLine(line).name != [] && ParseModLine(line).version != []
  {
    var m := ParseModLine(line);
    assert line == m.name + " " + m.version;
    assert line[|m.name|] == ' ';
  }

  /** The lines of a text file read in Python's universal-newline mode, without their line
      breaks. A "\r\n" pair yields an extra empty line, which the mods reader skips as blank. */
  function SplitLines(text: string): (lines: seq<string>)
    ensures |lines| >= 1
    ensures forall i :: 0 <= i < |lines| ==> forall c :: c in lines[i] ==> !IsLineBreak(c)
  {
    if text == [] then [""]
    else
      var rest := SplitLines(text[1..]);
      if IsLineBreak(text[0]) then [""] + rest
      else [[text[0]] + rest[0]] + rest[1..]
  }

  /** What one line contributes to the mods list: nothing when it is blank, otherwise the
      entry parsed from the stripped line. */
  function ModEntry(line: string): (r: seq<Mod>)
    ensures r == [] <==> AllSpace(line, Python)
    ensures |r| <= 1
  {
    var s := Trim(line, Python);
    if s == [] then [] else [ParseModLine(s)]
  }

  /** The entry of a non-blank line: split at the last space of the stripped line into a
      non-empty name and a non-empty, space-free version; or, with no space, the whole stripped
      line as name and an empty version. */
  lemma ModEntryFields(line: string)
    requires !AllSpace(line, Python)
    ensures var s := Trim(line, Python);
            var m := ModEntry(line)[0];
            && (' ' in s ==> m.name + " " + m.version == s && m.name != [] && m.version != []
                             && ' ' !in m.version)
            && (' ' !in s ==> m == Mod(s, ""))
  {
    var s := Trim(line, Python);
    if ' ' in s {
      SplitHalvesNonEmpty(s);
    }
  }

  /** The entries of a sequence of lines, in line order. */
  function ModEntries(lines: seq<string>): seq<Mod> {
    if lines == [] then []
    else ModEntries(lines[..|lines| - 1]) + ModEntry(lines[|lines| - 1])
  }

  /** Lines contribute independently and in order: the entries of two runs of lines are the
      entries of the first followed by those of the second. */
  lemma {:induction false} ModEntriesAppend(a: seq<string>, b: seq<string>)
    ensures ModEntries(a + b) == ModEntries(a) + ModEntries(b)
    decreases |b|
  {
    if b == [] {
      assert a + b == a;
    } else {
      var b' := b[..|b| - 1];
      assert (a + b)[..|a + b| - 1] == a + b';
      assert (a + b)[|a + b| - 1] == b[|b| - 1];
      ModEntriesAppend(a, b');
    }
  }

  lemma ModEntriesStep(lines: seq<string>, i: nat)
    requires i < |lines|
    ensures ModEntries(lines[..i + 1]) == ModEntries(lines[..i]) + ModEntry(lines[i])
  {
    assert lines[..i + 1][..i] == lines[..i];
  }

  /** `load_mods()`: the entries of the mods file, one per non-blank line; none when the file
      does not exist. */
  method LoadMods(file: Option<string>) returns (mods: seq<Mod>)
    ensures file.None? ==> mods == []
    ensures file.Some? ==> mods == ModEntries(SplitLines(file.value))
  {
    mods := [];
    if file.Some? {
      var lines := SplitLines(file.value);
      var i := 0;
      while i < |lines|
        invariant 0 <= i <= |lines|
        invariant mods == ModEntries(lines[..i])
      {
        var line := Trim(lines[i], Python);
        if line != [] {
          mods := mods + [ParseModLine(line)];
        }
        ModEntriesStep(lines, i);
        i := i + 1;
      }
      assert lines[..|lines|] == lines;
    }
  }

  /** The file name endings the gallery accepts, compared against the lower-cased name. */
  const ImageExtensions: seq<string> := [".png", ".jpg", ".jpeg", ".gif", ".webp"]

  predicate IsImageName(name: string) {
    exists e :: e in ImageExtensions && EndsWith(Lower(name), e)
  }

  /** The entries of a directory listing that the gallery shows, in listing order. */
  function ImageFiles(listing: seq<string>): (r: seq<string>)
    ensures forall f :: f in r <==> f in listing && IsImageName(f)
    ensures |r| <= |listing|
  {
    if listing == [] then []
    else
      var rest := ImageFiles(listing[1..]);
      assert forall f :: f in listing <==> f == listing[0] || f in listing[1..];
      if IsImageName(listing[0]) then [listing[0]] + rest else rest
  }

  /** `a` can be obtained from `b` by deleting elements. */
  predicate IsSubsequence<T(==)>(a: seq<T>, b: seq<T>)
    decreases |b|
  {
    a == [] || (b != [] && ((a[0] == b[0] && IsSubsequence(a[1..], b[1..])) || IsSubsequence(a, b[1..])))
  }

  /** The gallery keeps the listing's order: what it shows is a subsequence of the listing. */
  lemma {:induction false} ImageFilesIsSubsequence(listing: seq<string>)
    ensures IsSubsequence(ImageFiles(listing), listing)
  {
    if listing != [] {
      ImageFilesIsSubsequence(listing[1..]);
      var rest := ImageFiles(listing[1..]);
      if IsImageName(listing[0]) {
        assert ([listing[0]] + rest)[1..] == rest;
      } else if rest != [] {
        assert IsSubsequence(rest, listing[1..]);
      }
    }
  }

  /** Filtering commutes with concatenation of listings. */
  lemma {:induction false} ImageFilesAppend(a: seq<string>, b: seq<string>)
    ensures ImageFiles(a + b) == ImageFiles(a) + ImageFiles(b)
  {
    if a == [] {
      assert a + b == b;
    } else {
      assert (a + b)[0] == a[0] && (a + b)[1..] == a[1..] + b;
      ImageFilesAppend(a[1..], b);
    }
  }

  /** The `pictures` page's list of images: the image files of the pictures directory, or
      nothing when the directory does not exist. */
  function PictureList(directory: Option<seq<string>>): (r: seq<string>)
    ensures directory.None? ==> r == []
    ensures directory.Some? ==> forall f :: f in r <==> f in directory.value && IsImageName(f)
    ensures directory.Some? ==> IsSubsequence(r, directory.value)
  {
    match directory
    case None => []
    case Some(listing) =>
      ImageFilesIsSubsequence(listing);
      ImageFiles(listing)
  }

  /** A text without line breaks is a single line. */
  lemma {:induction false} SplitLinesSingle(a: string)
    requires forall c :: c in a ==> !IsLineBreak(c)
    ensures SplitLines(a) == [a]
  {
    if a != [] {
      assert a[0] in a;
      assert forall c :: c in a[1..] ==> c in a;
      SplitLinesSingle(a[1..]);
      assert [a[0]] + a[1..] == a;
    }
  }

  /** A line feed or a carriage return splits a text into the line before it and the lines
      after it; so "\r\n" ends a line and then yields an empty one. */
  lemma {:induction false} SplitLinesBreak(a: string, br: char, b: string)
    requires forall c :: c in a ==> !IsLineBreak(c)
    requires IsLineBreak(br)
    ensures SplitLines(a + [br] + b) == [a] + SplitLines(b)
  {
    if a == [] {
      assert a + [br] + b == [br] + b;
      assert ([br] + b)[1..] == b;
    } else {
      var t := a + [br] + b;
      assert t[0] == a[0] && t[1..] == a[1..] + [br] + b;
      assert forall c :: c in a[1..] ==> c in a;
      SplitLinesBreak(a[1..], br, b);
      assert [a[0]] + a[1..] == a;
    }
  }

  /** A "\r\n" pair ends the line before it and then yields an empty line. */
  lemma CarriageReturnLineFeed(a: string, b: string)
    requires forall c :: c in a ==> !IsLineBreak(c)
    ensures SplitLines(a + "\r\n" + b) == [a, ""] + SplitLines(b)
  {
    var t := "\n" + b;
    assert a + "\r\n" + b == a + ['\r'] + t;
    SplitLinesBreak(a, '\r', t);
    assert t == [] + ['\n'] + b;
    SplitLinesBreak([], '\n', b);
  }

  /** An empty line adds no entry. */
  lemma EmptyLineNoEntry(a: string)
    ensures ModEntries([a, ""]) == ModEntries([a])
  {
    var two := [a, ""];
    assert two[..1] == [a];
    assert ModEntry("") == [] by {
      assert AllSpace("", Python);
    }
    assert ModEntries(two) == ModEntries([a]) + ModEntry("");
  }

  /** The empty line that "\r\n" yields adds no entry: the mods read from a text with a
      "\r\n" are those read with a plain "\n" in its place. */
  lemma CarriageReturnLineFeedEntries(a: string, b: string)
    requires forall c :: c in a ==> !IsLineBreak(c)
    ensures ModEntries(SplitLines(a + "\r\n" + b)) == ModEntries(SplitLines(a + "\n" + b))
  {
    var rest := SplitLines(b);
    assert SplitLines(a + "\r\n" + b) == [a, ""] + rest by {
      CarriageReturnLineFeed(a, b);
    }
    assert SplitLines(a + "\n" + b) == [a] + rest by {
      assert a + "\n" + b == a + ['\n'] + b;
      SplitLinesBreak(a, '\n', b);
    }
    ModEntriesAppend([a, ""], rest);
    ModEntriesAppend([a], rest);
    EmptyLineNoEntry(a);
  }
}
