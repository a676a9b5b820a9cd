/**
 * File classification and directory copying from pkg/helpers/file.go.
 *
 * A file is kept when some whitelist entry is a suffix of its name, ignoring
 * ASCII case; its format follows from its suffix. CopyDir walks a directory
 * tree and, for every kept file, creates the target directory and then
 * either writes postprocessed Markdown, or copies the file raw. Its Go switch
 * has an empty `case Asciidoc:`, and Go cases do not fall through, so a kept
 * Asciidoc file is never written; a `Reading` selects between that
 * behaviour and the fall-through the code evidently intended.
 *
 * Filesystem effects are modelled as the list of actions CopyDir performs,
 * in order. A directory that cannot be read ends the process (log.Fatal):
 * the outcome records the actions done before that and the fatal stop.
 */
module Helpers {
  import opened GoStrings
  import opened FileTree
  import opened Workarounds

  const Asciidoc: string := "ASCIIDOC"
  const Markdown: string := "MARKDOWN"

  // ---------------------------------------------------------------------------
  // Classification

  /** `name` ends in `ext` when ASCII letters of both are compared without case. */
  predicate SuffixFold(name: string, ext: string) {
    |ext| <= |name| &&
    forall i :: 0 <= i < |ext| ==> LowerChar(name[|name| - |ext| + i]) == LowerChar(ext[i])
  }

  /** The Go test `HasSuffix(ToLower(name), ToLower(ext))` is the case-blind suffix relation. */
  lemma LowerSuffixIff(name: string, ext: string)
    ensures HasSuffix(ToLower(name), ToLower(ext)) <==> SuffixFold(name, ext)
  {
    var ln, le := ToLower(name), ToLower(ext);
    if |ext| <= |name| {
      var k := |name| - |ext|;
      var tail := ln[k..];
      assert |tail| == |le|;
      assert HasSuffix(ln, le) <==> tail == le;
      assert forall i :: 0 <= i < |ext| ==> tail[i] == LowerChar(name[k + i]) && le[i] == LowerChar(ext[i]);
      if SuffixFold(name, ext) {
        assert tail == le;
      }
      if tail == le {
        assert forall i :: 0 <= i < |ext| ==> tail[i] == le[i];
      }
    }
  }

  /**
   * shouldIgnoreFile: a file is kept exactly when some whitelist entry is a
   * case-blind suffix of its name; with an empty whitelist every file is ignored.
   */
  function ShouldIgnoreFile(filename: string, whitelist: seq<string>): (r: bool)
    ensures !r <==> exists i :: 0 <= i < |whitelist| && SuffixFold(filename, whitelist[i])
    ensures |whitelist| == 0 ==> r
    decreases |whitelist|
  {
    if |whitelist| == 0 then true
    else
      LowerSuffixIff(filename, whitelist[0]);
      if HasSuffix(ToLower(filename), ToLower(whitelist[0])) then false
      else
        var r := ShouldIgnoreFile(filename, whitelist[1..]);
        assert forall i :: 1 <= i < |whitelist| ==> whitelist[i] == whitelist[1..][i - 1];
        r
  }

  /** isMarkdown: a case-blind `.md` suffix. */
  function IsMarkdown(filename: string): (r: bool)
    ensures r <==> SuffixFold(filename, ".md")
  {
    LowerSuffixIff(filename, ".md");
    HasSuffix(ToLower(filename), ToLower(".md"))
  }

  /** isAsciidoc: a case-blind `.adoc`, `.asciidoc` or `.asc` suffix. */
  function IsAsciidoc(filename: string): (r: bool)
    ensures r <==> SuffixFold(filename, ".adoc") || SuffixFold(filename, ".asciidoc") || SuffixFold(filename, ".asc")
  {
    LowerSuffixIff(filename, ".adoc");
    LowerSuffixIff(filename, ".asciidoc");
    LowerSuffixIff(filename, ".asc");
    HasSuffix(ToLower(filename), ToLower(".adoc")) ||
    HasSuffix(ToLower(filename), ToLower(".asciidoc")) ||
    HasSuffix(ToLower(filename), ToLower(".asc"))
  }

  /** A case-blind suffix fixes the last character, up to case. */
  lemma SuffixFoldLast(name: string, ext: string)
    requires |ext| > 0
    ensures SuffixFold(name, ext) ==> LowerChar(name[|name| - 1]) == LowerChar(ext[|ext| - 1])
  {
    if SuffixFold(name, ext) {
      assert |name| - |ext| + (|ext| - 1) == |name| - 1;
    }
  }

  /** The Markdown suffix ends in `d`, every Asciidoc suffix in `c`: no name has both formats. */
  lemma FormatsDisjoint(filename: string)
    ensures !(IsMarkdown(filename) && IsAsciidoc(filename))
  {
    SuffixFoldLast(filename, ".md");
    SuffixFoldLast(filename, ".adoc");
    SuffixFoldLast(filename, ".asciidoc");
    SuffixFoldLast(filename, ".asc");
  }

  /**
   * DetermineFormat: MARKDOWN exactly for Markdown names, ASCIIDOC exactly
   * for Asciidoc names, and the empty string for every other name.
   */
  function DetermineFormat(filename: string): (r: string)
    ensures r == Markdown <==> IsMarkdown(filename)
    ensures r == Asciidoc <==> IsAsciidoc(filename)
    ensures r == "" <==> !IsMarkdown(filename) && !IsAsciidoc(filename)
  {
    FormatsDisjoint(filename);
    if IsMarkdown(filename) then Markdown
    else if IsAsciidoc(filename) then Asciidoc
    else ""
  }

  lemma SuffixFoldLower(name: string, ext: string)
    ensures SuffixFold(ToLower(name), ext) <==> SuffixFold(name, ext)
  {
    forall i | 0 <= i < |name|
      ensures LowerChar(ToLower(name)[i]) == LowerChar(name[i])
    {
      LowerCharIdempotent(name[i]);
    }
  }

  /** The format of a name does not depend on the case of its letters. */
  lemma DetermineFormatIgnoresCase(filename: string)
    ensures DetermineFormat(ToLower(filename)) == DetermineFormat(filename)
  {
    SuffixFoldLower(filename, ".md");
    SuffixFoldLower(filename, ".adoc");
    SuffixFoldLower(filename, ".asciidoc");
    SuffixFoldLower(filename, ".asc");
  }

  /** The names checked in the repository's tests of isMarkdown. */
  lemma IsMarkdownExamples()
    ensures IsMarkdown("markdown.md")
    ensures IsMarkdown("markdown.MD")
    ensures !IsMarkdown("somefolderwith.md-init/somefile.tmp")
  {
    MdSuffix("markdown.md");
    MdSuffix("markdown.MD");
    SuffixFoldLast("somefolderwith.md-init/somefile.tmp", ".md");
  }

  lemma MdSuffix(name: string)
    requires |name| >= 3 && name[|name| - 3] == '.'
    requires LowerChar(name[|name| - 2]) == 'm' && LowerChar(name[|name| - 1]) == 'd'
    ensures IsMarkdown(name)
  {
    var k := |name| - 3;
    assert forall i :: 0 <= i < 3 ==> LowerChar(name[k + i]) == LowerChar(".md"[i]);
  }

  /** The names checked in the repository's tests of isAsciidoc. */
  lemma IsAsciidocExamples()
    ensures IsAsciidoc("asciidoc.adoc")
    ensures IsAsciidoc("asciidoc.ADOC")
    ensures !IsAsciidoc("somefolderwith.adoc-init/somefile.tmp")
  {
    AdocSuffix("asciidoc.adoc");
    AdocSuffix("asciidoc.ADOC");
    NotAsciidoc("somefolderwith.adoc-init/somefile.tmp");
  }

  lemma AdocSuffix(name: string)
    requires |name| >= 5 && name[|name| - 5] == '.'
    requires LowerChar(name[|name| - 4]) == 'a' && LowerChar(name[|name| - 3]) == 'd'
    requires LowerChar(name[|name| - 2]) == 'o' && LowerChar(name[|name| - 1]) == 'c'
    ensures IsAsciidoc(name)
  {
    var k := |name| - 5;
    assert forall i :: 0 <= i < 5 ==> LowerChar(name[k + i]) == LowerChar(".adoc"[i]);
    assert SuffixFold(name, ".adoc");
  }

  lemma NotAsciidoc(name: string)
    requires |name| > 0 && LowerChar(name[|name| - 1]) != 'c'
    ensures !IsAsciidoc(name)
  {
    SuffixFoldLast(name, ".adoc");
    SuffixFoldLast(name, ".asciidoc");
    SuffixFoldLast(name, ".asc");
  }

  // ---------------------------------------------------------------------------
  // CopyDir

  datatype Action =
    | MkdirAll(dir: string)
    | WriteFile(path: string, content: string)
    | CopyFile(path: string, content: string)

  /** The actions of a run, and whether it ended in log.Fatal. */
  datatype Outcome = Outcome(actions: seq<Action>, fatal: bool)

  /**
   * Which reading of a defect in the code a member follows: the code as
   * written, or what it evidently intends. For CopyDir the intended reading
   * lets `case Asciidoc:` fall through to the write.
   */
  datatype Reading = AsWritten | Intended

  /** The postprocessed content written for a markup format. */
  function Postprocess(format: string, dirty: string): (r: string)
  {
    if format == Markdown then MarkdownPostprocessing(dirty)
    else if format == Asciidoc then AsciidocPostprocessing(dirty)
    else []
  }

  /**
   * The postprocessor is chosen by the file name: Markdown names get the
   * Markdown rewrite, Asciidoc names the Asciidoc rewrite, and any other name
   * is left with empty content (the code never writes that case).
   */
  lemma PostprocessByName(name: string, dirty: string)
    ensures IsMarkdown(name) ==> Postprocess(DetermineFormat(name), dirty) == MarkdownPostprocessing(dirty)
    ensures IsAsciidoc(name) ==> Postprocess(DetermineFormat(name), dirty) == AsciidocPostprocessing(dirty)
    ensures !IsMarkdown(name) && !IsAsciidoc(name) ==> Postprocess(DetermineFormat(name), dirty) == []
  {
    FormatsDisjoint(name);
  }

  /**
   * The decision for one file entry of CopyDir: ignored files produce
   * nothing; a kept file first creates `target`, then Markdown is written
   * postprocessed to `target/name`, Asciidoc is not written at all (as
   * written) or written postprocessed (falling through), and anything else is
   * copied raw to `target/name`.
   */
  function FileActions(name: string, content: string, target: string, whitelist: seq<string>, rd: Reading): (r: seq<Action>)
  {
    if ShouldIgnoreFile(name, whitelist) then []
    else
      var targetFilename := target + "/" + name;
      var contentFormat := DetermineFormat(name);
      [MkdirAll(target)] +
      (if contentFormat == Asciidoc && rd == AsWritten then []
       else if contentFormat == Asciidoc || contentFormat == Markdown
       then [WriteFile(targetFilename, Postprocess(contentFormat, content))]
       else [CopyFile(targetFilename, content)])
  }

  /** What FileActions decides, by the file's kind. */
  lemma FileActionsCases(name: string, content: string, target: string, whitelist: seq<string>, rd: Reading)
    ensures var r := FileActions(name, content, target, whitelist, rd);
      && (r == [] <==> ShouldIgnoreFile(name, whitelist))
      && (r != [] ==> r[0] == MkdirAll(target))
      && (!ShouldIgnoreFile(name, whitelist) && IsMarkdown(name) ==>
            r == [MkdirAll(target), WriteFile(target + "/" + name, MarkdownPostprocessing(content))])
      && (!ShouldIgnoreFile(name, whitelist) && IsAsciidoc(name) ==>
            r == if rd == AsWritten then [MkdirAll(target)]
                 else [MkdirAll(target), WriteFile(target + "/" + name, AsciidocPostprocessing(content))])
      && (!ShouldIgnoreFile(name, whitelist) && !IsMarkdown(name) && !IsAsciidoc(name) ==>
            r == [MkdirAll(target), CopyFile(target + "/" + name, content)])
  {
  }

  /** CopyDir over a directory listing; an unreadable directory is fatal. */
  function CopyTree(l: Listing, target: string, whitelist: seq<string>, rd: Reading): (r: Outcome)
    decreases l
  {
    match l
    case Unreadable => Outcome([], true)
    case Listed(es) => CopyEntries(es, target, whitelist, rd)
  }

  /** The loop over a directory's entries; a fatal stop in one entry ends the run. */
  function CopyEntries(es: seq<Entry>, target: string, whitelist: seq<string>, rd: Reading): (r: Outcome)
    decreases es
  {
    if |es| == 0 then Outcome([], false)
    else
      var first := CopyEntry(es[0], target, whitelist, rd);
      if first.fatal then first
      else
        var rest := CopyEntries(es[1..], target, whitelist, rd);
        Outcome(first.actions + rest.actions, rest.fatal)
  }

  /** A subdirectory is copied recursively into `target/name`; a file follows FileActions. */
  function CopyEntry(e: Entry, target: string, whitelist: seq<string>, rd: Reading): (r: Outcome)
    decreases e
  {
    match e
    case Dir(name, l) => CopyTree(l, target + "/" + name, whitelist, rd)
    case File(name, content) => Outcome(FileActions(name, content, target, whitelist, rd), false)
  }

  /** CopyDir as the code has it. */
  function CopyDir(l: Listing, target: string, whitelist: seq<string>): (r: Outcome)
  {
    CopyTree(l, target, whitelist, AsWritten)
  }

  /** CopyDir with the Asciidoc case falling through to the postprocessing branch. */
  function CopyDirIntended(l: Listing, target: string, whitelist: seq<string>): (r: Outcome)
  {
    CopyTree(l, target, whitelist, Intended)
  }

  // ---------------------------------------------------------------------------
  // CopyDir against the flattened tree

  /** The target directory of a file below `target`: one `/name` per parent directory. */
  function TargetDir(target: string, parents: seq<string>): (r: string)
    ensures target <= r
    decreases |parents|
  {
    if |parents| == 0 then target
    else
      var r := TargetDir(target + "/" + parents[0], parents[1..]);
      assert target <= target + "/" + parents[0];
      r
  }

  /** The per-file decisions for a flat list of files, in order. */
  function FlatActions(fs: seq<Located>, target: string, whitelist: seq<string>, rd: Reading): (r: seq<Action>)
    decreases |fs|
  {
    if |fs| == 0 then []
    else
      FileActions(fs[0].name, fs[0].content, TargetDir(target, fs[0].parents), whitelist, rd) +
      FlatActions(fs[1..], target, whitelist, rd)
  }

  lemma {:induction false} FlatActionsAppend(a: seq<Located>, b: seq<Located>, target: string, whitelist: seq<string>, rd: Reading)
    ensures FlatActions(a + b, target, whitelist, rd) ==
            FlatActions(a, target, whitelist, rd) + FlatActions(b, target, whitelist, rd)
    decreases |a|
  {
    if |a| == 0 {
      assert a + b == b;
    } else {
      AppendTail(a, b);
      FlatActionsAppend(a[1..], b, target, whitelist, rd);
    }
  }

  lemma {:induction false} FlatActionsUnder(dir: string, fs: seq<Located>, target: string, whitelist: seq<string>, rd: Reading)
    ensures FlatActions(Under(dir, fs), target, whitelist, rd) == FlatActions(fs, target + "/" + dir, whitelist, rd)
    decreases |fs|
  {
    if |fs| > 0 {
      var u := Under(dir, fs);
      assert u[1..] == Under(dir, fs[1..]);
      assert ([dir] + fs[0].parents)[1..] == fs[0].parents;
      FlatActionsUnder(dir, fs[1..], target, whitelist, rd);
    }
  }

  /**
   * CopyDir over a readable tree performs exactly the per-file decisions of
   * its files, depth-first in listing order, each below the target directory
   * its parents name; it stops fatally exactly when some directory is unreadable.
   */
  lemma {:induction false} CopyTreeFlat(l: Listing, target: string, whitelist: seq<string>, rd: Reading)
    ensures CopyTree(l, target, whitelist, rd).fatal <==> !Readable(l)
    ensures Readable(l) ==> CopyTree(l, target, whitelist, rd).actions == FlatActions(Flatten(l), target, whitelist, rd)
    decreases l
  {
    match l
    case Unreadable =>
    case Listed(es) => CopyEntriesFlat(es, target, whitelist, rd);
  }

  lemma {:induction false} CopyEntriesFlat(es: seq<Entry>, target: string, whitelist: seq<string>, rd: Reading)
    ensures CopyEntries(es, target, whitelist, rd).fatal <==> !ReadableEntries(es)
    ensures ReadableEntries(es) ==> CopyEntries(es, target, whitelist, rd).actions == FlatActions(FlattenEntries(es), target, whitelist, rd)
    decreases es
  {
    if |es| > 0 {
      var e := es[0];
      CopyEntriesFlat(es[1..], target, whitelist, rd);
      FlatActionsAppend(FlattenEntry(e), FlattenEntries(es[1..]), target, whitelist, rd);
      match e
      case File(name, content) =>
        assert FlatActions(FlattenEntry(e), target, whitelist, rd) == FileActions(name, content, target, whitelist, rd) + [];
      case Dir(name, sub) =>
        CopyTreeFlat(sub, target + "/" + name, whitelist, rd);
        FlatActionsUnder(name, Flatten(sub), target, whitelist, rd);
    }
  }

  /** CopyDir: the flat reading of the tree, for the code as written. */
  lemma CopyDirIsFlat(l: Listing, target: string, whitelist: seq<string>)
    ensures CopyDir(l, target, whitelist).fatal <==> !Readable(l)
    ensures Readable(l) ==> CopyDir(l, target, whitelist).actions == FlatActions(Flatten(l), target, whitelist, AsWritten)
  {
    CopyTreeFlat(l, target, whitelist, AsWritten);
  }

  /** What a kept file should turn into below directory `dir`. */
  function Delivered(name: string, content: string, dir: string): (a: Action)
    ensures a.WriteFile? <==> IsMarkdown(name) || IsAsciidoc(name)
  {
    var path := dir + "/" + name;
    if IsMarkdown(name) then WriteFile(path, MarkdownPostprocessing(content))
    else if IsAsciidoc(name) then WriteFile(path, AsciidocPostprocessing(content))
    else CopyFile(path, content)
  }

  /**
   * A kept file gets its target directory and then its delivering action under
   * the fall-through; as written, an Asciidoc file gets the directory only.
   */
  lemma KeptFileDelivered(name: string, content: string, dir: string, whitelist: seq<string>)
    ensures ShouldIgnoreFile(name, whitelist) ==> FileActions(name, content, dir, whitelist, Intended) == []
    ensures !ShouldIgnoreFile(name, whitelist) ==>
      FileActions(name, content, dir, whitelist, Intended) == [MkdirAll(dir), Delivered(name, content, dir)]
    ensures !ShouldIgnoreFile(name, whitelist) && !IsAsciidoc(name) ==>
      FileActions(name, content, dir, whitelist, AsWritten) == [MkdirAll(dir), Delivered(name, content, dir)]
    ensures !ShouldIgnoreFile(name, whitelist) && IsAsciidoc(name) ==>
      FileActions(name, content, dir, whitelist, AsWritten) == [MkdirAll(dir)]
  {
    FileActionsCases(name, content, dir, whitelist, Intended);
    FileActionsCases(name, content, dir, whitelist, AsWritten);
  }

  lemma {:induction false} FlatActionsDeliver(fs: seq<Located>, k: nat, target: string, whitelist: seq<string>)
    requires k < |fs| && !ShouldIgnoreFile(fs[k].name, whitelist)
    ensures Delivered(fs[k].name, fs[k].content, TargetDir(target, fs[k].parents)) in FlatActions(fs, target, whitelist, Intended)
    decreases k
  {
    var f := fs[0];
    var here := FileActions(f.name, f.content, TargetDir(target, f.parents), whitelist, Intended);
    var rest := FlatActions(fs[1..], target, whitelist, Intended);
    if k == 0 {
      FileActionsCases(f.name, f.content, TargetDir(target, f.parents), whitelist, Intended);
      FormatsDisjoint(f.name);
      assert here[|here| - 1] == Delivered(f.name, f.content, TargetDir(target, f.parents));
      assert (here + rest)[|here| - 1] == here[|here| - 1];
    } else {
      assert fs[1..][k - 1] == fs[k];
      FlatActionsDeliver(fs[1..], k - 1, target, whitelist);
      assert (here + rest)[|here| + IndexOf(rest, Delivered(fs[k].name, fs[k].content, TargetDir(target, fs[k].parents)))] in here + rest;
    }
  }

  /** The position of an element that occurs in a sequence. */
  function IndexOf<T(==)>(s: seq<T>, x: T): (i: nat)
    requires x in s
    ensures i < |s| && s[i] == x
  {
    if s[0] == x then 0 else 1 + IndexOf(s[1..], x)
  }

  /**
   * With the Asciidoc case falling through, every kept file of a readable
   * tree is delivered: Markdown and Asciidoc written postprocessed, anything
   * else copied raw, each to its own place below the target.
   */
  lemma CopyDirIntendedDeliversAll(l: Listing, target: string, whitelist: seq<string>, k: nat)
    requires Readable(l) && k < |Flatten(l)| && !ShouldIgnoreFile(Flatten(l)[k].name, whitelist)
    ensures !CopyDirIntended(l, target, whitelist).fatal
    ensures var f := Flatten(l)[k];
      Delivered(f.name, f.content, TargetDir(target, f.parents)) in CopyDirIntended(l, target, whitelist).actions
  {
    CopyTreeFlat(l, target, whitelist, Intended);
    FlatActionsDeliver(Flatten(l), k, target, whitelist);
  }

  /**
   * As written, a kept Asciidoc file is dropped: copying a directory that
   * holds only `index.adoc` with `.adoc` whitelisted creates the target
   * directory and writes nothing, although the file is to be delivered.
   */
  lemma CopyDirDropsAsciidoc(target: string, content: string)
    ensures CopyDir(Listed([File("index.adoc", content)]), target, [".adoc"]) == Outcome([MkdirAll(target)], false)
    ensures Delivered("index.adoc", content, target) !in CopyDir(Listed([File("index.adoc", content)]), target, [".adoc"]).actions
  {
    var name := "index.adoc";
    AdocKept(name);
    var es := [File(name, content)];
    assert es[1..] == [];
    var first := FileActions(name, content, target, [".adoc"], AsWritten);
    FileActionsCases(name, content, target, [".adoc"], AsWritten);
    assert first == [MkdirAll(target)];
    assert CopyEntries(es, target, [".adoc"], AsWritten) == Outcome(first + [], false);
    assert first + [] == first;
  }

  lemma AdocKept(name: string)
    requires name == "index.adoc"
    ensures !ShouldIgnoreFile(name, [".adoc"]) && IsAsciidoc(name) && !IsMarkdown(name)
  {
    AdocSuffix(name);
    assert SuffixFold(name, [".adoc"][0]);
    FormatsDisjoint(name);
  }
}
