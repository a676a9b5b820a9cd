/**
 * The markup postprocessing of internal/workarounds/workarounds.go.
 *
 * The site generator serves every page one directory deeper than its source
 * file ("pretty URLs"), and the source comment asks for relative image targets
 * to climb one more level: `img/` should become `../img/`. The code does this
 * with a fixed sequence of `strings.ReplaceAll` calls that look only at the
 * text around the target, never at the target itself. `image:http` and
 * `](http` are first hidden behind an escape marker, every remaining `image:`
 * or `](` gains `../`, and the marker is turned back into the original text.
 * So an Asciidoc block macro `image::x` becomes `image:../:x` (whatever `x`
 * is, `http` included), and a Markdown anchor `](#a` or rooted `](/a`
 * becomes `](../#a` or `](..//a`.
 *
 * Each pipeline is modelled exactly as written and then characterised by a
 * single left-to-right pass (`AsciidocScan`, `MarkdownScan`) proved equal to
 * it on every input. The single pass makes the behaviour readable and
 * exposes the marker quirk: text that already contains an escape marker is
 * "restored" into something it never was. The marker-free rewriters
 * (`AsciidocMarkerless`, `MarkdownMarkerless`) omit the marker rules and agree
 * with the pipelines on every input free of markers.
 */
module Workarounds {
  import opened GoStrings

  // ---------------------------------------------------------------------------
  // Asciidoc

  /** An image macro with an absolute target */
  const ImageHttp: string := "image:http"
  /** The image macro */
  const ImageMacro: string := "image:"
  /** The image macro with its target moved one level up */
  const ImageRelative: string := "image:../"
  /** The escape marker that hides absolute image targets during the middle pass */
  const ImageMarker: string := "image_______http"

  /** The three passes of AsciidocPostprocessing, in order. */
  function HideImageHttp(s: string): string { ReplaceAll(s, ImageHttp, ImageMarker) }
  function RelativizeImages(s: string): string { ReplaceAll(s, ImageMacro, ImageRelative) }
  function RestoreImageHttp(s: string): string { ReplaceAll(s, ImageMarker, ImageHttp) }

  /** AsciidocPostprocessing: hide `image:http`, turn every `image:` into `image:../`, restore. */
  function AsciidocPostprocessing(dirty: string): string {
    RestoreImageHttp(RelativizeImages(HideImageHttp(dirty)))
  }

  /**
   * The three passes in one left-to-right scan: an absolute image target is
   * kept, any other image macro gains `../`, a literal escape marker comes out
   * as `image:http`, and every other character is copied.
   */
  function AsciidocScan(s: string): string
    decreases |s|
  {
    if |s| == 0 then []
    else if ImageHttp <= s then ImageHttp + AsciidocScan(s[|ImageHttp|..])
    else if ImageMacro <= s then ImageRelative + AsciidocScan(s[|ImageMacro|..])
    else if ImageMarker <= s then ImageHttp + AsciidocScan(s[|ImageMarker|..])
    else [s[0]] + AsciidocScan(s[1..])
  }

  /**
   * The Asciidoc scan without its marker branch: every `image:` not directly
   * followed by `http` gains one `../`, whatever follows it, and nothing else
   * changes.
   */
  function AsciidocMarkerless(s: string): string
    decreases |s|
  {
    if |s| == 0 then []
    else if ImageHttp <= s then ImageHttp + AsciidocMarkerless(s[|ImageHttp|..])
    else if ImageMacro <= s then ImageRelative + AsciidocMarkerless(s[|ImageMacro|..])
    else [s[0]] + AsciidocMarkerless(s[1..])
  }

  /** An absolute image target passes through all three passes unchanged. */
  lemma AsciidocStepHttp(t: string)
    ensures AsciidocPostprocessing(ImageHttp + t) == ImageHttp + AsciidocPostprocessing(t)
  {
    var x1 := HideImageHttp(t);
    var x2 := RelativizeImages(x1);
    calc {
      HideImageHttp(ImageHttp + t);
      { ReplaceHead(t, ImageHttp, ImageMarker); }
      ImageMarker + x1;
    }
    calc {
      RelativizeImages(ImageMarker + x1);
      { MarkerNotRelativized(x1); }
      ImageMarker + x2;
    }
    calc {
      RestoreImageHttp(ImageMarker + x2);
      { ReplaceHead(x2, ImageMarker, ImageHttp); }
      ImageHttp + RestoreImageHttp(x2);
    }
  }

  /** A relative image target gains `../`. */
  lemma AsciidocStepRelative(t: string)
    requires !(ImageHttp <= ImageMacro + t)
    ensures AsciidocPostprocessing(ImageMacro + t) == ImageRelative + AsciidocPostprocessing(t)
  {
    var x1 := HideImageHttp(t);
    var x2 := RelativizeImages(x1);
    calc {
      HideImageHttp(ImageMacro + t);
      { assert ImageMacro + t == ['i'] + ("mage:" + t);
        ReplaceMiss('i', "mage:" + t, ImageHttp, ImageMarker); }
      "i" + HideImageHttp("mage:" + t);
      { CopyFree("mage:", t, ImageHttp, ImageMarker); }
      "i" + ("mage:" + x1);
      ImageMacro + x1;
    }
    calc {
      RelativizeImages(ImageMacro + x1);
      { ReplaceHead(x1, ImageMacro, ImageRelative); }
      ImageRelative + x2;
    }
    calc {
      RestoreImageHttp(ImageRelative + x2);
      { CopyChunk(ImageRelative, x2, ImageMarker, ImageHttp, 5); }
      ImageRelative + RestoreImageHttp(x2);
    }
  }

  /** A literal escape marker in the input is turned into `image:http`. */
  lemma AsciidocStepMarker(t: string)
    ensures AsciidocPostprocessing(ImageMarker + t) == ImageHttp + AsciidocPostprocessing(t)
  {
    var x1 := HideImageHttp(t);
    var x2 := RelativizeImages(x1);
    CopyChunk(ImageMarker, t, ImageHttp, ImageMarker, 5);
    MarkerNotRelativized(x1);
    ReplaceHead(x2, ImageMarker, ImageHttp);
  }

  /** The middle pass leaves an escape marker alone: its `image` is followed by `_`, not `:`. */
  lemma MarkerNotRelativized(x: string)
    ensures RelativizeImages(ImageMarker + x) == ImageMarker + RelativizeImages(x)
  {
    CopyChunk(ImageMarker, x, ImageMacro, ImageRelative, 5);
  }

  /** A character that starts neither an image macro nor a marker is copied by all three passes. */
  lemma AsciidocStepOther(c: char, t: string)
    requires !(ImageMacro <= [c] + t) && !(ImageMarker <= [c] + t)
    ensures AsciidocPostprocessing([c] + t) == [c] + AsciidocPostprocessing(t)
  {
    var x1 := HideImageHttp(t);
    var x2 := RelativizeImages(x1);
    // pass 1: `image:http` would start with `image:`
    PrefixOfCons(c, t, ImageHttp);
    PrefixOfCons(c, t, ImageMacro);
    ReplaceMiss(c, t, ImageHttp, ImageMarker);
    // pass 2: `mage:` after the character would have been there before pass 1
    PrefixOfCons(c, x1, ImageMacro);
    ReflectFree(t, "mage:", ImageHttp, ImageMarker);
    ReplaceMiss(c, x1, ImageMacro, ImageRelative);
    // pass 3: `mage_______http` would have been there before passes 2 and 1
    PrefixOfCons(c, x2, ImageMarker);
    PrefixOfCons(c, t, ImageMarker);
    ReflectFree(x1, "mage_______http", ImageMacro, ImageRelative);
    ReflectFree(t, "mage_______http", ImageHttp, ImageMarker);
    ReplaceMiss(c, x2, ImageMarker, ImageHttp);
  }

  /**
   * A block macro `image::` gains `../` between its two colons, whatever its
   * target: `image::http://x.png[]` comes out as `image:../:http://x.png[]`,
   * and the block macro is gone.
   */
  lemma AsciidocBlockMacro(t: string)
    ensures AsciidocPostprocessing("image::" + t) == "image:../:" + AsciidocPostprocessing(t)
    ensures !("image::" <= AsciidocPostprocessing("image::" + t))
  {
    assert "image::" + t == ImageMacro + (":" + t);
    assert (ImageMacro + (":" + t))[6] == ':';
    AsciidocStepRelative(":" + t);
    assert ":" + t == [':'] + t;
    AsciidocStepOther(':', t);
    assert ImageRelative + ([':'] + AsciidocPostprocessing(t)) == "image:../:" + AsciidocPostprocessing(t);
    assert ("image:../:" + AsciidocPostprocessing(t))[6] == '.';
  }

  /** The three-pass pipeline is, on every input, the single left-to-right scan. */
  lemma {:induction false} AsciidocSinglePass(s: string)
    ensures AsciidocPostprocessing(s) == AsciidocScan(s)
    decreases |s|
  {
    if |s| > 0 {
      if ImageHttp <= s {
        var t := s[|ImageHttp|..];
        PrefixSplit(ImageHttp, s);
        AsciidocStepHttp(t);
        AsciidocSinglePass(t);
      } else if ImageMacro <= s {
        var t := s[|ImageMacro|..];
        PrefixSplit(ImageMacro, s);
        AsciidocStepRelative(t);
        AsciidocSinglePass(t);
      } else if ImageMarker <= s {
        var t := s[|ImageMarker|..];
        PrefixSplit(ImageMarker, s);
        AsciidocStepMarker(t);
        AsciidocSinglePass(t);
      } else {
        var t := s[1..];
        PrefixSplit([s[0]], s);
        AsciidocStepOther(s[0], t);
        AsciidocSinglePass(t);
      }
    }
  }

  /** On input without the escape marker, the three passes equal the marker-free rewrite. */
  lemma {:induction false} AsciidocMarkerFree(s: string)
    requires !Contains(s, ImageMarker)
    ensures AsciidocPostprocessing(s) == AsciidocMarkerless(s)
  {
    AsciidocSinglePass(s);
    ScanIsMarkerless(s);
  }

  lemma {:induction false} ScanIsMarkerless(s: string)
    requires !Contains(s, ImageMarker)
    ensures AsciidocScan(s) == AsciidocMarkerless(s)
    decreases |s|
  {
    if |s| > 0 {
      if ImageHttp <= s {
        ContainsDrop(s, ImageMarker, |ImageHttp|);
        ScanIsMarkerless(s[|ImageHttp|..]);
      } else if ImageMacro <= s {
        ContainsDrop(s, ImageMarker, |ImageMacro|);
        ScanIsMarkerless(s[|ImageMacro|..]);
      } else {
        ContainsDrop(s, ImageMarker, 1);
        ScanIsMarkerless(s[1..]);
      }
    }
  }

  /** Text with no image macro and no escape marker passes through unchanged. */
  lemma {:induction false} AsciidocUntouched(s: string)
    requires !Contains(s, ImageMacro) && !Contains(s, ImageMarker)
    ensures AsciidocPostprocessing(s) == s
  {
    AsciidocSinglePass(s);
    ScanCopiesPlainText(s);
  }

  lemma {:induction false} ScanCopiesPlainText(s: string)
    requires !Contains(s, ImageMacro) && !Contains(s, ImageMarker)
    ensures AsciidocScan(s) == s
    decreases |s|
  {
    if |s| > 0 {
      assert !(ImageHttp <= s) by {
        PrefixTrans(ImageMacro, ImageHttp, s);
      }
      ContainsDrop(s, ImageMacro, 1);
      ContainsDrop(s, ImageMarker, 1);
      ScanCopiesPlainText(s[1..]);
      assert s == [s[0]] + s[1..];
    }
  }

  /** The prefix relation is transitive. */
  lemma PrefixTrans(a: string, b: string, c: string)
    requires a <= b
    ensures b <= c ==> a <= c
  {
    if b <= c {
      assert c[..|a|] == b[..|a|];
    }
  }

  /**
   * The marker quirk: a literal `image_______http` in the input, which the
   * marker-free rewriter leaves alone, comes out as `image:http`.
   */
  lemma AsciidocMarkerQuirk()
    ensures AsciidocPostprocessing(ImageMarker) == ImageHttp
    ensures AsciidocMarkerless(ImageMarker) == ImageMarker
  {
    AsciidocStepMarker([]);
    assert ImageMarker + [] == ImageMarker;
    assert ImageHttp + [] == ImageHttp;
    MarkerlessCopiesMarker();
  }

  lemma MarkerlessCopiesMarker()
    ensures AsciidocMarkerless(ImageMarker) == ImageMarker
  {
    var m := ImageMarker;
    NotPrefixAt(m, ImageMacro, 5);
    assert 'i' !in m[1..];
    MarkerlessCopyHead(m);
  }

  /** A leading character that starts no image macro, followed by text without an `i`, is copied. */
  lemma MarkerlessCopyHead(s: string)
    requires |s| > 0 && !(ImageMacro <= s) && 'i' !in s[1..]
    ensures AsciidocMarkerless(s) == s
  {
    PrefixTrans(ImageMacro, ImageHttp, s);
    MarkerlessCopyFree(s[1..]);
    PrefixSplit([s[0]], s);
  }

  /** Text without an `i` is copied by the marker-free rewriter. */
  lemma {:induction false} MarkerlessCopyFree(s: string)
    requires 'i' !in s
    ensures AsciidocMarkerless(s) == s
    decreases |s|
  {
    if |s| > 0 {
      assert s[0] != 'i';
      MarkerlessCopyFree(s[1..]);
      assert s == [s[0]] + s[1..];
    }
  }

  /**
   * Every relative image target gains exactly three characters: the output
   * length is the input length plus 3 for each `image:` that is not an
   * `image:http` (counted with strings.Count).
   */
  lemma {:induction false} AsciidocMarkerlessLength(s: string)
    ensures |AsciidocMarkerless(s)| == |s| + 3 * (Count(s, ImageMacro) - Count(s, ImageHttp))
    decreases |s|
  {
    if |s| > 0 {
      if ImageHttp <= s {
        var t := s[|ImageHttp|..];
        PrefixSplit(ImageHttp, s);
        CountImageHttp(t);
        AsciidocMarkerlessLength(t);
      } else if ImageMacro <= s {
        var t := s[|ImageMacro|..];
        PrefixSplit(ImageMacro, s);
        CountImageRelative(t);
        AsciidocMarkerlessLength(t);
      } else {
        var t := s[1..];
        PrefixSplit([s[0]], s);
        assert !(ImageHttp <= s) by { PrefixTrans(ImageMacro, ImageHttp, s); }
        CountMiss(s[0], t, ImageMacro);
        CountMiss(s[0], t, ImageHttp);
        AsciidocMarkerlessLength(t);
      }
    }
  }

  /** An absolute image target counts once as a macro and once as an absolute target. */
  lemma CountImageHttp(t: string)
    ensures Count(ImageHttp + t, ImageHttp) == 1 + Count(t, ImageHttp)
    ensures Count(ImageHttp + t, ImageMacro) == 1 + Count(t, ImageMacro)
  {
    CountHead(t, ImageHttp);
    assert ImageHttp + t == ImageMacro + ("http" + t);
    CountHead("http" + t, ImageMacro);
    CountFree("http", t, ImageMacro);
  }

  /** A relative image target counts once as a macro and not as an absolute target. */
  lemma CountImageRelative(t: string)
    requires !(ImageHttp <= ImageMacro + t)
    ensures Count(ImageMacro + t, ImageMacro) == 1 + Count(t, ImageMacro)
    ensures Count(ImageMacro + t, ImageHttp) == Count(t, ImageHttp)
  {
    CountHead(t, ImageMacro);
    assert ImageMacro + t == ['i'] + ("mage:" + t);
    CountMiss('i', "mage:" + t, ImageHttp);
    CountFree("mage:", t, ImageHttp);
  }

  /** For marker-free input, AsciidocPostprocessing adds `../` (3 characters) per relative image target. */
  lemma AsciidocLength(s: string)
    requires !Contains(s, ImageMarker)
    ensures |AsciidocPostprocessing(s)| == |s| + 3 * (Count(s, ImageMacro) - Count(s, ImageHttp))
  {
    AsciidocMarkerFree(s);
    AsciidocMarkerlessLength(s);
  }

  // ---------------------------------------------------------------------------
  // Markdown

  /** A link or image whose target is absolute */
  const LinkHttp: string := "](http"
  /** The escape marker that hides `](http` during the middle pass */
  const LinkHttpMarker: string := ")_______http"
  /** The opening of a link inside brackets, `[[...]](...)`, which must not be rewritten */
  const DoubleOpen: string := "]]("
  /** The escape marker that hides `]](` during the middle pass */
  const DoubleOpenMarker: string := "]]_______("
  /** The opening of a link or image target */
  const LinkOpen: string := "]("
  /** The opening of a link or image target moved one level up */
  const LinkRelative: string := "](../"
  /** An absolute target directly after a double bracket */
  const DoubleLinkHttp: string := "]](http"

  /** The five passes of MarkdownPostprocessing, in order. */
  function HideLinkHttp(s: string): string { ReplaceAll(s, LinkHttp, LinkHttpMarker) }
  function HideDoubleOpen(s: string): string { ReplaceAll(s, DoubleOpen, DoubleOpenMarker) }
  function RelativizeLinks(s: string): string { ReplaceAll(s, LinkOpen, LinkRelative) }
  function RestoreLinkHttp(s: string): string { ReplaceAll(s, LinkHttpMarker, LinkHttp) }
  function RestoreDoubleOpen(s: string): string { ReplaceAll(s, DoubleOpenMarker, DoubleOpen) }

  /** MarkdownPostprocessing: hide `](http` and `]](`, turn every `](` into `](../`, restore both. */
  function MarkdownPostprocessing(dirty: string): string {
    RestoreDoubleOpen(RestoreLinkHttp(RelativizeLinks(HideDoubleOpen(HideLinkHttp(dirty)))))
  }

  /**
   * The five passes in one left-to-right scan: `](http` and `]](` are kept, any
   * other `](` gains `../`, the two literal escape markers come out as `](http`
   * and `]](`, and every other character is copied.
   */
  function MarkdownScan(s: string): string
    decreases |s|
  {
    if |s| == 0 then []
    else if LinkHttp <= s then LinkHttp + MarkdownScan(s[|LinkHttp|..])
    else if DoubleOpen <= s then DoubleOpen + MarkdownScan(s[|DoubleOpen|..])
    else if LinkOpen <= s then LinkRelative + MarkdownScan(s[|LinkOpen|..])
    else if LinkHttpMarker <= s then LinkHttp + MarkdownScan(s[|LinkHttpMarker|..])
    else if DoubleOpenMarker <= s then DoubleOpen + MarkdownScan(s[|DoubleOpenMarker|..])
    else [s[0]] + MarkdownScan(s[1..])
  }

  /**
   * The Markdown scan without its marker branches: every `](` that is neither
   * followed by `http` nor the tail of `]](` gains one `../`, whatever the
   * target is (an anchor or a rooted path too), and nothing else changes.
   */
  function MarkdownMarkerless(s: string): string
    decreases |s|
  {
    if |s| == 0 then []
    else if LinkHttp <= s then LinkHttp + MarkdownMarkerless(s[|LinkHttp|..])
    else if DoubleOpen <= s then DoubleOpen + MarkdownMarkerless(s[|DoubleOpen|..])
    else if LinkOpen <= s then LinkRelative + MarkdownMarkerless(s[|LinkOpen|..])
    else [s[0]] + MarkdownMarkerless(s[1..])
  }

  /** `]](http`: the absolute target is hidden by the first pass, so the double bracket is never seen. */
  lemma MarkdownStepDoubleHttp(t: string)
    ensures MarkdownPostprocessing(DoubleLinkHttp + t) == DoubleLinkHttp + MarkdownPostprocessing(t)
  {
    var x1 := HideLinkHttp(t);
    var x3 := RelativizeLinks(HideDoubleOpen(x1));
    DoubleHttpHidden(t);
    DoubleHttpMiddle(x1);
    DoubleHttpRestored(x3);
  }

  /** The first pass hides the `](http` inside `]](http`. */
  lemma DoubleHttpHidden(t: string)
    ensures HideLinkHttp(DoubleLinkHttp + t) == ("]" + LinkHttpMarker) + HideLinkHttp(t)
  {
    var x1 := HideLinkHttp(t);
    calc {
      HideLinkHttp(DoubleLinkHttp + t);
      { assert DoubleLinkHttp + t == [']'] + (LinkHttp + t);
        NotPrefixAt(DoubleLinkHttp + t, LinkHttp, 1);
        ReplaceMiss(']', LinkHttp + t, LinkHttp, LinkHttpMarker); }
      "]" + HideLinkHttp(LinkHttp + t);
      { ReplaceHead(t, LinkHttp, LinkHttpMarker); }
      "]" + (LinkHttpMarker + x1);
      ("]" + LinkHttpMarker) + x1;
    }
  }

  /** The second and third passes leave the hidden `]](http` alone. */
  lemma DoubleHttpMiddle(x1: string)
    ensures RelativizeLinks(HideDoubleOpen(("]" + LinkHttpMarker) + x1))
         == ("]" + LinkHttpMarker) + RelativizeLinks(HideDoubleOpen(x1))
  {
    var hidden := "]" + LinkHttpMarker;
    var x2 := HideDoubleOpen(x1);
    CopyChunk(hidden, x1, DoubleOpen, DoubleOpenMarker, 1);
    CopyChunk(hidden, x2, LinkOpen, LinkRelative, 1);
  }

  /** The fourth and fifth passes turn the hidden form back into `]](http`. */
  lemma DoubleHttpRestored(x3: string)
    ensures RestoreDoubleOpen(RestoreLinkHttp(("]" + LinkHttpMarker) + x3))
         == DoubleLinkHttp + RestoreDoubleOpen(RestoreLinkHttp(x3))
  {
    var hidden := "]" + LinkHttpMarker;
    var x4 := RestoreLinkHttp(x3);
    calc {
      RestoreLinkHttp(hidden + x3);
      { assert hidden + x3 == "]" + (LinkHttpMarker + x3);
        CopyFree("]", LinkHttpMarker + x3, LinkHttpMarker, LinkHttp); }
      "]" + RestoreLinkHttp(LinkHttpMarker + x3);
      { ReplaceHead(x3, LinkHttpMarker, LinkHttp); }
      "]" + (LinkHttp + x4);
      DoubleLinkHttp + x4;
    }
    CopyChunk2(DoubleLinkHttp, x4, DoubleOpenMarker, DoubleOpen, 2, 1);
  }

  /** `](http`: hidden by the first pass, restored by the fourth. */
  lemma MarkdownStepLinkHttp(t: string)
    ensures MarkdownPostprocessing(LinkHttp + t) == LinkHttp + MarkdownPostprocessing(t)
  {
    var x1 := HideLinkHttp(t);
    var x2 := HideDoubleOpen(x1);
    var x3 := RelativizeLinks(x2);
    var x4 := RestoreLinkHttp(x3);
    calc {
      HideLinkHttp(LinkHttp + t);
      { ReplaceHead(t, LinkHttp, LinkHttpMarker); }
      LinkHttpMarker + x1;
    }
    calc {
      HideDoubleOpen(LinkHttpMarker + x1);
      { CopyFree(LinkHttpMarker, x1, DoubleOpen, DoubleOpenMarker); }
      LinkHttpMarker + x2;
    }
    calc {
      RelativizeLinks(LinkHttpMarker + x2);
      { CopyFree(LinkHttpMarker, x2, LinkOpen, LinkRelative); }
      LinkHttpMarker + x3;
    }
    calc {
      RestoreLinkHttp(LinkHttpMarker + x3);
      { ReplaceHead(x3, LinkHttpMarker, LinkHttp); }
      LinkHttp + x4;
    }
    calc {
      RestoreDoubleOpen(LinkHttp + x4);
      { CopyChunk(LinkHttp, x4, DoubleOpenMarker, DoubleOpen, 1); }
      LinkHttp + RestoreDoubleOpen(x4);
    }
  }

  /** `]](` not followed by `http`: hidden by the second pass, restored by the fifth. */
  lemma MarkdownStepDoubleOpen(t: string)
    requires !(DoubleLinkHttp <= DoubleOpen + t)
    ensures MarkdownPostprocessing(DoubleOpen + t) == DoubleOpen + MarkdownPostprocessing(t)
  {
    var x1 := HideLinkHttp(t);
    var x2 := HideDoubleOpen(x1);
    var x3 := RelativizeLinks(x2);
    var x4 := RestoreLinkHttp(x3);
    calc {
      HideLinkHttp(DoubleOpen + t);
      { assert DoubleOpen + t == [']'] + (LinkOpen + t);
        NotPrefixAt(DoubleOpen + t, LinkHttp, 1);
        ReplaceMiss(']', LinkOpen + t, LinkHttp, LinkHttpMarker); }
      "]" + HideLinkHttp(LinkOpen + t);
      { assert LinkOpen + t == [']'] + ("(" + t);
        PrefixOfCons(']', LinkOpen + t, DoubleLinkHttp);
        ReplaceMiss(']', "(" + t, LinkHttp, LinkHttpMarker); }
      "]" + ("]" + HideLinkHttp("(" + t));
      { CopyFree("(", t, LinkHttp, LinkHttpMarker); }
      "]" + ("]" + ("(" + x1));
      DoubleOpen + x1;
    }
    calc {
      HideDoubleOpen(DoubleOpen + x1);
      { ReplaceHead(x1, DoubleOpen, DoubleOpenMarker); }
      DoubleOpenMarker + x2;
    }
    calc {
      RelativizeLinks(DoubleOpenMarker + x2);
      { CopyChunk2(DoubleOpenMarker, x2, LinkOpen, LinkRelative, 1, 1); }
      DoubleOpenMarker + x3;
    }
    calc {
      RestoreLinkHttp(DoubleOpenMarker + x3);
      { CopyFree(DoubleOpenMarker, x3, LinkHttpMarker, LinkHttp); }
      DoubleOpenMarker + x4;
    }
    calc {
      RestoreDoubleOpen(DoubleOpenMarker + x4);
      { ReplaceHead(x4, DoubleOpenMarker, DoubleOpen); }
      DoubleOpen + RestoreDoubleOpen(x4);
    }
  }

  /** A relative `](` gains `../`. */
  lemma MarkdownStepRelative(t: string)
    requires !(LinkHttp <= LinkOpen + t)
    ensures MarkdownPostprocessing(LinkOpen + t) == LinkRelative + MarkdownPostprocessing(t)
  {
    var x1 := HideLinkHttp(t);
    var x2 := HideDoubleOpen(x1);
    var x3 := RelativizeLinks(x2);
    var x4 := RestoreLinkHttp(x3);
    calc {
      HideLinkHttp(LinkOpen + t);
      { assert LinkOpen + t == [']'] + ("(" + t);
        ReplaceMiss(']', "(" + t, LinkHttp, LinkHttpMarker); }
      "]" + HideLinkHttp("(" + t);
      { CopyFree("(", t, LinkHttp, LinkHttpMarker); }
      "]" + ("(" + x1);
      LinkOpen + x1;
    }
    calc {
      HideDoubleOpen(LinkOpen + x1);
      { CopyChunk(LinkOpen, x1, DoubleOpen, DoubleOpenMarker, 1); }
      LinkOpen + x2;
    }
    calc {
      RelativizeLinks(LinkOpen + x2);
      { ReplaceHead(x2, LinkOpen, LinkRelative); }
      LinkRelative + x3;
    }
    calc {
      RestoreLinkHttp(LinkRelative + x3);
      { CopyFree(LinkRelative, x3, LinkHttpMarker, LinkHttp); }
      LinkRelative + x4;
    }
    calc {
      RestoreDoubleOpen(LinkRelative + x4);
      { CopyChunk(LinkRelative, x4, DoubleOpenMarker, DoubleOpen, 1); }
      LinkRelative + RestoreDoubleOpen(x4);
    }
  }

  /** A literal `)_______http` in the input comes out as `](http`. */
  lemma MarkdownStepLinkMarker(t: string)
    ensures MarkdownPostprocessing(LinkHttpMarker + t) == LinkHttp + MarkdownPostprocessing(t)
  {
    var x1 := HideLinkHttp(t);
    var x2 := HideDoubleOpen(x1);
    var x3 := RelativizeLinks(x2);
    var x4 := RestoreLinkHttp(x3);
    calc {
      HideLinkHttp(LinkHttpMarker + t);
      { CopyFree(LinkHttpMarker, t, LinkHttp, LinkHttpMarker); }
      LinkHttpMarker + x1;
    }
    calc {
      HideDoubleOpen(LinkHttpMarker + x1);
      { CopyFree(LinkHttpMarker, x1, DoubleOpen, DoubleOpenMarker); }
      LinkHttpMarker + x2;
    }
    calc {
      RelativizeLinks(LinkHttpMarker + x2);
      { CopyFree(LinkHttpMarker, x2, LinkOpen, LinkRelative); }
      LinkHttpMarker + x3;
    }
    calc {
      RestoreLinkHttp(LinkHttpMarker + x3);
      { ReplaceHead(x3, LinkHttpMarker, LinkHttp); }
      LinkHttp + x4;
    }
    calc {
      RestoreDoubleOpen(LinkHttp + x4);
      { CopyChunk(LinkHttp, x4, DoubleOpenMarker, DoubleOpen, 1); }
      LinkHttp + RestoreDoubleOpen(x4);
    }
  }

  /** A literal `]]_______(` in the input comes out as `]](`. */
  lemma MarkdownStepDoubleMarker(t: string)
    ensures MarkdownPostprocessing(DoubleOpenMarker + t) == DoubleOpen + MarkdownPostprocessing(t)
  {
    var x1 := HideLinkHttp(t);
    var x2 := HideDoubleOpen(x1);
    var x3 := RelativizeLinks(x2);
    var x4 := RestoreLinkHttp(x3);
    calc {
      HideLinkHttp(DoubleOpenMarker + t);
      { CopyChunk2(DoubleOpenMarker, t, LinkHttp, LinkHttpMarker, 1, 1); }
      DoubleOpenMarker + x1;
    }
    calc {
      HideDoubleOpen(DoubleOpenMarker + x1);
      { CopyChunk2(DoubleOpenMarker, x1, DoubleOpen, DoubleOpenMarker, 2, 1); }
      DoubleOpenMarker + x2;
    }
    calc {
      RelativizeLinks(DoubleOpenMarker + x2);
      { CopyChunk2(DoubleOpenMarker, x2, LinkOpen, LinkRelative, 1, 1); }
      DoubleOpenMarker + x3;
    }
    calc {
      RestoreLinkHttp(DoubleOpenMarker + x3);
      { CopyFree(DoubleOpenMarker, x3, LinkHttpMarker, LinkHttp); }
      DoubleOpenMarker + x4;
    }
    calc {
      RestoreDoubleOpen(DoubleOpenMarker + x4);
      { ReplaceHead(x4, DoubleOpenMarker, DoubleOpen); }
      DoubleOpen + RestoreDoubleOpen(x4);
    }
  }

  /** A character that starts none of `]]( ](`, or the two markers is copied by all five passes. */
  lemma MarkdownStepOther(c: char, t: string)
    requires !(DoubleOpen <= [c] + t) && !(LinkOpen <= [c] + t)
    requires !(LinkHttpMarker <= [c] + t) && !(DoubleOpenMarker <= [c] + t)
    ensures MarkdownPostprocessing([c] + t) == [c] + MarkdownPostprocessing(t)
  {
    OtherHideLinkHttp(c, t);
    OtherHideDoubleOpen(c, t);
    OtherRelativize(c, t);
    OtherRestoreLinkHttp(c, t);
    OtherRestoreDoubleOpen(c, t);
  }

  /** Pass 1 copies the character: `](http` would start with `](`. */
  lemma OtherHideLinkHttp(c: char, t: string)
    requires !(LinkOpen <= [c] + t)
    ensures HideLinkHttp([c] + t) == [c] + HideLinkHttp(t)
  {
    PrefixTrans(LinkOpen, LinkHttp, [c] + t);
    ReplaceMiss(c, t, LinkHttp, LinkHttpMarker);
  }

  /** Pass 2 copies the character: `](` after it would have been there before pass 1. */
  lemma OtherHideDoubleOpen(c: char, t: string)
    requires !(DoubleOpen <= [c] + t)
    ensures HideDoubleOpen([c] + HideLinkHttp(t)) == [c] + HideDoubleOpen(HideLinkHttp(t))
  {
    var x1 := HideLinkHttp(t);
    PrefixOfCons(c, x1, DoubleOpen);
    PrefixOfCons(c, t, DoubleOpen);
    ReflectFree(t, "](", LinkHttp, LinkHttpMarker);
    ReplaceMiss(c, x1, DoubleOpen, DoubleOpenMarker);
  }

  /** Pass 3 copies the character: `(` after it would have been there before passes 2 and 1. */
  lemma OtherRelativize(c: char, t: string)
    requires !(LinkOpen <= [c] + t)
    ensures RelativizeLinks([c] + HideDoubleOpen(HideLinkHttp(t)))
         == [c] + RelativizeLinks(HideDoubleOpen(HideLinkHttp(t)))
  {
    var x1 := HideLinkHttp(t);
    var x2 := HideDoubleOpen(x1);
    PrefixOfCons(c, x2, LinkOpen);
    PrefixOfCons(c, t, LinkOpen);
    ReflectFree(x1, "(", DoubleOpen, DoubleOpenMarker);
    ReflectFree(t, "(", LinkHttp, LinkHttpMarker);
    ReplaceMiss(c, x2, LinkOpen, LinkRelative);
  }

  /** Pass 4 copies the character: `_______http` after it would have been there before passes 3 to 1. */
  lemma OtherRestoreLinkHttp(c: char, t: string)
    requires !(LinkHttpMarker <= [c] + t)
    ensures RestoreLinkHttp([c] + RelativizeLinks(HideDoubleOpen(HideLinkHttp(t))))
         == [c] + RestoreLinkHttp(RelativizeLinks(HideDoubleOpen(HideLinkHttp(t))))
  {
    var x1 := HideLinkHttp(t);
    var x2 := HideDoubleOpen(x1);
    var x3 := RelativizeLinks(x2);
    var p4 := "_______http";
    PrefixOfCons(c, x3, LinkHttpMarker);
    PrefixOfCons(c, t, LinkHttpMarker);
    ReflectFree(x2, p4, LinkOpen, LinkRelative);
    ReflectFree(x1, p4, DoubleOpen, DoubleOpenMarker);
    ReflectFree(t, p4, LinkHttp, LinkHttpMarker);
    ReplaceMiss(c, x3, LinkHttpMarker, LinkHttp);
  }

  /** Pass 5 copies the character: `]_______(` after it would have been there before passes 4 to 1. */
  lemma OtherRestoreDoubleOpen(c: char, t: string)
    requires !(DoubleOpenMarker <= [c] + t)
    ensures RestoreDoubleOpen([c] + RestoreLinkHttp(RelativizeLinks(HideDoubleOpen(HideLinkHttp(t)))))
         == [c] + RestoreDoubleOpen(RestoreLinkHttp(RelativizeLinks(HideDoubleOpen(HideLinkHttp(t)))))
  {
    var x1 := HideLinkHttp(t);
    var x2 := HideDoubleOpen(x1);
    var x3 := RelativizeLinks(x2);
    var x4 := RestoreLinkHttp(x3);
    var p5 := "]_______(";
    PrefixOfCons(c, x4, DoubleOpenMarker);
    PrefixOfCons(c, t, DoubleOpenMarker);
    ReflectChunk(x3, p5, LinkHttpMarker, LinkHttp, 1);
    ReflectChunk(x2, p5, LinkOpen, LinkRelative, 1);
    ReflectChunk(x1, p5, DoubleOpen, DoubleOpenMarker, 1);
    ReflectFree(t, p5, LinkHttp, LinkHttpMarker);
    ReplaceMiss(c, x4, DoubleOpenMarker, DoubleOpen);
  }

  /**
   * A link whose target starts with `#` or `/` gains `../` like any other:
   * `[a](#x)` comes out as `[a](../#x)` and `[a](/x)` as `[a](..//x)`.
   */
  lemma MarkdownAnchorOrRooted(c: char, t: string)
    requires c == '#' || c == '/'
    ensures MarkdownPostprocessing(LinkOpen + ([c] + t)) == LinkRelative + ([c] + MarkdownPostprocessing(t))
  {
    assert (LinkOpen + ([c] + t))[2] == c;
    MarkdownStepRelative([c] + t);
    MarkdownStepOther(c, t);
  }

  /** The five-pass pipeline is, on every input, the single left-to-right scan. */
  lemma {:induction false} MarkdownSinglePass(s: string)
    ensures MarkdownPostprocessing(s) == MarkdownScan(s)
    decreases |s|
  {
    if |s| > 0 {
      var k, out := MarkdownChunk(s);
      MarkdownSinglePass(s[k..]);
    }
  }

  /** Pipeline and scan agree on the first chunk of a non-empty input and both go on after it. */
  lemma MarkdownChunk(s: string) returns (k: nat, out: string)
    requires |s| > 0
    ensures 0 < k <= |s|
    ensures MarkdownPostprocessing(s) == out + MarkdownPostprocessing(s[k..])
    ensures MarkdownScan(s) == out + MarkdownScan(s[k..])
  {
    if LinkHttp <= s {
      k, out := |LinkHttp|, LinkHttp;
      ChunkLinkHttp(s);
    } else if DoubleOpen <= s {
      if DoubleLinkHttp <= s {
        k, out := MarkdownChunkDoubleHttp(s);
      } else {
        k, out := |DoubleOpen|, DoubleOpen;
        ChunkDoubleOpen(s);
      }
    } else if LinkOpen <= s {
      k, out := |LinkOpen|, LinkRelative;
      ChunkRelative(s);
    } else if LinkHttpMarker <= s {
      k, out := |LinkHttpMarker|, LinkHttp;
      ChunkLinkMarker(s);
    } else if DoubleOpenMarker <= s {
      k, out := |DoubleOpenMarker|, DoubleOpen;
      ChunkDoubleMarker(s);
    } else {
      k, out := 1, [s[0]];
      ChunkOther(s);
    }
  }

  lemma ChunkLinkHttp(s: string)
    requires LinkHttp <= s
    ensures MarkdownPostprocessing(s) == LinkHttp + MarkdownPostprocessing(s[|LinkHttp|..])
    ensures MarkdownScan(s) == LinkHttp + MarkdownScan(s[|LinkHttp|..])
  {
    PrefixSplit(LinkHttp, s);
    MarkdownStepLinkHttp(s[|LinkHttp|..]);
  }

  lemma ChunkDoubleOpen(s: string)
    requires !(LinkHttp <= s) && DoubleOpen <= s && !(DoubleLinkHttp <= s)
    ensures MarkdownPostprocessing(s) == DoubleOpen + MarkdownPostprocessing(s[|DoubleOpen|..])
    ensures MarkdownScan(s) == DoubleOpen + MarkdownScan(s[|DoubleOpen|..])
  {
    PrefixSplit(DoubleOpen, s);
    MarkdownStepDoubleOpen(s[|DoubleOpen|..]);
  }

  lemma ChunkRelative(s: string)
    requires !(LinkHttp <= s) && !(DoubleOpen <= s) && LinkOpen <= s
    ensures MarkdownPostprocessing(s) == LinkRelative + MarkdownPostprocessing(s[|LinkOpen|..])
    ensures MarkdownScan(s) == LinkRelative + MarkdownScan(s[|LinkOpen|..])
  {
    PrefixSplit(LinkOpen, s);
    MarkdownStepRelative(s[|LinkOpen|..]);
  }

  lemma ChunkLinkMarker(s: string)
    requires !(LinkHttp <= s) && !(DoubleOpen <= s) && !(LinkOpen <= s) && LinkHttpMarker <= s
    ensures MarkdownPostprocessing(s) == LinkHttp + MarkdownPostprocessing(s[|LinkHttpMarker|..])
    ensures MarkdownScan(s) == LinkHttp + MarkdownScan(s[|LinkHttpMarker|..])
  {
    PrefixSplit(LinkHttpMarker, s);
    MarkdownStepLinkMarker(s[|LinkHttpMarker|..]);
  }

  lemma ChunkDoubleMarker(s: string)
    requires !(LinkHttp <= s) && !(DoubleOpen <= s) && !(LinkOpen <= s)
    requires !(LinkHttpMarker <= s) && DoubleOpenMarker <= s
    ensures MarkdownPostprocessing(s) == DoubleOpen + MarkdownPostprocessing(s[|DoubleOpenMarker|..])
    ensures MarkdownScan(s) == DoubleOpen + MarkdownScan(s[|DoubleOpenMarker|..])
  {
    PrefixSplit(DoubleOpenMarker, s);
    MarkdownStepDoubleMarker(s[|DoubleOpenMarker|..]);
  }

  lemma ChunkOther(s: string)
    requires |s| > 0
    requires !(LinkHttp <= s) && !(DoubleOpen <= s) && !(LinkOpen <= s)
    requires !(LinkHttpMarker <= s) && !(DoubleOpenMarker <= s)
    ensures MarkdownPostprocessing(s) == [s[0]] + MarkdownPostprocessing(s[1..])
    ensures MarkdownScan(s) == [s[0]] + MarkdownScan(s[1..])
  {
    PostOther(s);
    ScanOther(s);
  }

  lemma PostOther(s: string)
    requires |s| > 0
    requires !(DoubleOpen <= s) && !(LinkOpen <= s)
    requires !(LinkHttpMarker <= s) && !(DoubleOpenMarker <= s)
    ensures MarkdownPostprocessing(s) == [s[0]] + MarkdownPostprocessing(s[1..])
  {
    PrefixSplit([s[0]], s);
    MarkdownStepOther(s[0], s[1..]);
  }

  lemma ScanOther(s: string)
    requires |s| > 0
    requires !(LinkHttp <= s) && !(DoubleOpen <= s) && !(LinkOpen <= s)
    requires !(LinkHttpMarker <= s) && !(DoubleOpenMarker <= s)
    ensures MarkdownScan(s) == [s[0]] + MarkdownScan(s[1..])
  {
  }

  lemma MarkdownChunkDoubleHttp(s: string) returns (k: nat, out: string)
    requires DoubleLinkHttp <= s
    ensures 0 < k <= |s|
    ensures MarkdownPostprocessing(s) == out + MarkdownPostprocessing(s[k..])
    ensures MarkdownScan(s) == out + MarkdownScan(s[k..])
  {
    k, out := |DoubleLinkHttp|, DoubleLinkHttp;
    var u := s[k..];
    assert s == DoubleLinkHttp + u;
    MarkdownStepDoubleHttp(u);
    ScanDoubleHttp(u);
  }

  /** The scan reads `]](http` as a kept `]](` followed by plain `http`. */
  lemma ScanDoubleHttp(u: string)
    ensures MarkdownScan(DoubleLinkHttp + u) == DoubleLinkHttp + MarkdownScan(u)
  {
    var s := DoubleLinkHttp + u;
    NotPrefixAt(s, LinkHttp, 1);
    assert DoubleOpen <= s;
    assert s[|DoubleOpen|..] == "http" + u;
    ScanCopyFree("http", u);
    assert DoubleLinkHttp == DoubleOpen + "http";
    AppendAssoc(DoubleOpen, "http", MarkdownScan(u));
  }

  /** Text without `]` or `)` is copied by the scan, whatever follows it. */
  lemma {:induction false} ScanCopyFree(c: string, x: string)
    requires ']' !in c && ')' !in c
    ensures MarkdownScan(c + x) == c + MarkdownScan(x)
    decreases |c|
  {
    if |c| > 0 {
      var s := c + x;
      assert s[0] == c[0];
      assert s[1..] == c[1..] + x;
      NotPrefixAt(s, LinkHttp, 0);
      NotPrefixAt(s, DoubleOpen, 0);
      NotPrefixAt(s, LinkOpen, 0);
      NotPrefixAt(s, LinkHttpMarker, 0);
      NotPrefixAt(s, DoubleOpenMarker, 0);
      assert MarkdownScan(s) == [c[0]] + MarkdownScan(c[1..] + x);
      ScanCopyFree(c[1..], x);
      assert c == [c[0]] + c[1..];
    } else {
      assert c + x == x;
    }
  }

  /** On input without either escape marker, the five passes equal the marker-free rewrite. */
  lemma MarkdownMarkerFree(s: string)
    requires !Contains(s, LinkHttpMarker) && !Contains(s, DoubleOpenMarker)
    ensures MarkdownPostprocessing(s) == MarkdownMarkerless(s)
  {
    MarkdownSinglePass(s);
    MarkdownScanIsMarkerless(s);
  }

  lemma {:induction false} MarkdownScanIsMarkerless(s: string)
    requires !Contains(s, LinkHttpMarker) && !Contains(s, DoubleOpenMarker)
    ensures MarkdownScan(s) == MarkdownMarkerless(s)
    decreases |s|
  {
    if |s| > 0 {
      var k := if LinkHttp <= s then |LinkHttp|
               else if DoubleOpen <= s then |DoubleOpen|
               else if LinkOpen <= s then |LinkOpen|
               else 1;
      ContainsDrop(s, LinkHttpMarker, k);
      ContainsDrop(s, DoubleOpenMarker, k);
      MarkdownScanIsMarkerless(s[k..]);
    }
  }

  /** Text with no `](` and no escape marker passes through unchanged. */
  lemma MarkdownUntouched(s: string)
    requires !Contains(s, LinkOpen)
    requires !Contains(s, LinkHttpMarker) && !Contains(s, DoubleOpenMarker)
    ensures MarkdownPostprocessing(s) == s
  {
    MarkdownSinglePass(s);
    MarkdownScanCopies(s);
  }

  lemma {:induction false} MarkdownScanCopies(s: string)
    requires !Contains(s, LinkOpen)
    requires !Contains(s, LinkHttpMarker) && !Contains(s, DoubleOpenMarker)
    ensures MarkdownScan(s) == s
    decreases |s|
  {
    if |s| > 0 {
      assert !(LinkHttp <= s) by { PrefixTrans(LinkOpen, LinkHttp, s); }
      ContainsDrop(s, LinkOpen, 1);
      assert !(DoubleOpen <= s) by {
        PrefixOfCons(s[0], s[1..], DoubleOpen);
        assert s == [s[0]] + s[1..];
      }
      ContainsDrop(s, LinkHttpMarker, 1);
      ContainsDrop(s, DoubleOpenMarker, 1);
      MarkdownScanCopies(s[1..]);
      assert s == [s[0]] + s[1..];
    }
  }

  /**
   * The marker quirk: a literal `)_______http` or `]]_______(` in the input,
   * which the marker-free rewriter leaves alone, comes out as `](http` or `]](`.
   */
  lemma MarkdownMarkerQuirk()
    ensures MarkdownPostprocessing(LinkHttpMarker) == LinkHttp
    ensures MarkdownMarkerless(LinkHttpMarker) == LinkHttpMarker
    ensures MarkdownPostprocessing(DoubleOpenMarker) == DoubleOpen
    ensures MarkdownMarkerless(DoubleOpenMarker) == DoubleOpenMarker
  {
    MarkdownStepLinkMarker([]);
    MarkdownStepDoubleMarker([]);
    assert LinkHttpMarker + [] == LinkHttpMarker;
    assert DoubleOpenMarker + [] == DoubleOpenMarker;
    assert LinkHttp + [] == LinkHttp;
    assert DoubleOpen + [] == DoubleOpen;
    MarkerlessCopiesLinkMarker();
    MarkerlessCopiesDoubleMarker();
  }

  lemma MarkerlessCopiesLinkMarker()
    ensures MarkdownMarkerless(LinkHttpMarker) == LinkHttpMarker
  {
    var m := LinkHttpMarker;
    MarkerlessCopyPlain(m);
  }

  lemma MarkerlessCopiesDoubleMarker()
    ensures MarkdownMarkerless(DoubleOpenMarker) == DoubleOpenMarker
  {
    var q := DoubleOpenMarker;
    var q1 := q[1..];
    assert q == [q[0]] + q1;
    assert q1 == [q1[0]] + q[2..];
    NotPrefixAt(q, LinkHttp, 1);
    NotPrefixAt(q, DoubleOpen, 2);
    NotPrefixAt(q, LinkOpen, 1);
    NotPrefixAt(q1, LinkHttp, 1);
    NotPrefixAt(q1, DoubleOpen, 1);
    NotPrefixAt(q1, LinkOpen, 1);
    MarkerlessCopyPlain(q[2..]);
  }

  /** Text without `]` is copied by the marker-free rewriter. */
  lemma {:induction false} MarkerlessCopyPlain(s: string)
    requires ']' !in s
    ensures MarkdownMarkerless(s) == s
    decreases |s|
  {
    if |s| > 0 {
      NotPrefixAt(s, LinkHttp, 0);
      NotPrefixAt(s, DoubleOpen, 0);
      NotPrefixAt(s, LinkOpen, 0);
      MarkerlessCopyPlain(s[1..]);
      assert s == [s[0]] + s[1..];
    }
  }

  /**
   * The number of link targets the Markdown rewriter moves up one level,
   * counted with strings.Count: every `](` that is not `](http`, less the
   * `]](` openings, where a `]](http` is both and must be added back.
   */
  function LinkGain(s: string): (n: int) {
    Count(s, LinkOpen) - Count(s, LinkHttp) - Count(s, DoubleOpen) + Count(s, DoubleLinkHttp)
  }

  /** Prefixing a common string preserves the prefix relation both ways. */
  lemma PrefixCancel(a: string, b: string, x: string)
    ensures a + b <= a + x <==> b <= x
  {
    if a + b <= a + x {
      assert x[..|b|] == (a + x)[|a|..|a| + |b|];
    }
    if b <= x {
      assert (a + x)[..|a| + |b|] == a + x[..|b|];
    }
  }

  lemma GainLinkHttp(t: string)
    ensures LinkGain(LinkHttp + t) == LinkGain(t)
  {
    LinkHttpOpens(t);
    LinkHttpNotDouble(t);
  }

  lemma LinkHttpOpens(t: string)
    ensures Count(LinkHttp + t, LinkOpen) == 1 + Count(t, LinkOpen)
    ensures Count(LinkHttp + t, LinkHttp) == 1 + Count(t, LinkHttp)
  {
    var s := LinkHttp + t;
    assert s == LinkOpen + ("http" + t);
    CountHead("http" + t, LinkOpen);
    CountFree("http", t, LinkOpen);
    CountHead(t, LinkHttp);
  }

  lemma LinkHttpNotDouble(t: string)
    ensures Count(LinkHttp + t, DoubleOpen) == Count(t, DoubleOpen)
    ensures Count(LinkHttp + t, DoubleLinkHttp) == Count(t, DoubleLinkHttp)
  {
    var s := LinkHttp + t;
    assert s == [']'] + ("(http" + t);
    NotPrefixAt(s, DoubleOpen, 1);
    NotPrefixAt(s, DoubleLinkHttp, 1);
    CountMiss(']', "(http" + t, DoubleOpen);
    CountMiss(']', "(http" + t, DoubleLinkHttp);
    CountFree("(http", t, DoubleOpen);
    CountFree("(http", t, DoubleLinkHttp);
  }

  lemma GainDoubleOpen(t: string)
    ensures LinkGain(DoubleOpen + t) == LinkGain(t)
  {
    DoubleOpenOpens(t);
    if "http" <= t {
      DoubleOpenHttp(t[4..]);
      assert t == "http" + t[4..];
    } else {
      DoubleOpenPlain(t);
    }
  }

  lemma DoubleOpenOpens(t: string)
    ensures Count(DoubleOpen + t, LinkOpen) == 1 + Count(t, LinkOpen)
    ensures Count(DoubleOpen + t, DoubleOpen) == 1 + Count(t, DoubleOpen)
  {
    var s := DoubleOpen + t;
    var r := LinkOpen + t;
    assert s == [']'] + r;
    NotPrefixAt(s, LinkOpen, 1);
    CountMiss(']', r, LinkOpen);
    CountHead(t, LinkOpen);
    CountHead(t, DoubleOpen);
  }

  lemma DoubleOpenHttp(u: string)
    ensures Count(DoubleOpen + ("http" + u), LinkHttp) == 1 + Count("http" + u, LinkHttp)
    ensures Count(DoubleOpen + ("http" + u), DoubleLinkHttp) == 1 + Count("http" + u, DoubleLinkHttp)
  {
    var s := DoubleOpen + ("http" + u);
    assert s == DoubleLinkHttp + u;
    assert s == [']'] + (LinkHttp + u);
    NotPrefixAt(s, LinkHttp, 1);
    CountMiss(']', LinkHttp + u, LinkHttp);
    CountHead(u, LinkHttp);
    CountHead(u, DoubleLinkHttp);
    CountFree("http", u, LinkHttp);
    CountFree("http", u, DoubleLinkHttp);
  }

  lemma DoubleOpenPlain(t: string)
    requires !("http" <= t)
    ensures Count(DoubleOpen + t, LinkHttp) == Count(t, LinkHttp)
    ensures Count(DoubleOpen + t, DoubleLinkHttp) == Count(t, DoubleLinkHttp)
  {
    var s := DoubleOpen + t;
    var r := LinkOpen + t;
    assert s == [']'] + r;
    assert r == [']'] + ("(" + t);
    assert DoubleLinkHttp == DoubleOpen + "http";
    assert LinkHttp == LinkOpen + "http";
    PrefixCancel(DoubleOpen, "http", t);
    PrefixCancel(LinkOpen, "http", t);
    NotPrefixAt(s, LinkHttp, 1);
    CountMiss(']', r, LinkHttp);
    CountMiss(']', "(" + t, LinkHttp);
    CountFree("(", t, LinkHttp);
    NotPrefixAt(r, DoubleLinkHttp, 1);
    CountMiss(']', r, DoubleLinkHttp);
    CountMiss(']', "(" + t, DoubleLinkHttp);
    CountFree("(", t, DoubleLinkHttp);
  }

  lemma GainRelative(t: string)
    requires !(LinkHttp <= LinkOpen + t)
    ensures LinkGain(LinkOpen + t) == 1 + LinkGain(t)
  {
    var s := LinkOpen + t;
    assert s == [']'] + ("(" + t);
    CountHead(t, LinkOpen);
    CountMiss(']', "(" + t, LinkHttp);
    CountFree("(", t, LinkHttp);
    NotPrefixAt(s, DoubleOpen, 1);
    NotPrefixAt(s, DoubleLinkHttp, 1);
    CountMiss(']', "(" + t, DoubleOpen);
    CountMiss(']', "(" + t, DoubleLinkHttp);
    CountFree("(", t, DoubleOpen);
    CountFree("(", t, DoubleLinkHttp);
  }

  lemma GainOther(c: char, t: string)
    requires !(LinkOpen <= [c] + t) && !(DoubleOpen <= [c] + t)
    ensures LinkGain([c] + t) == LinkGain(t)
  {
    PrefixTrans(LinkOpen, LinkHttp, [c] + t);
    PrefixTrans(DoubleOpen, DoubleLinkHttp, [c] + t);
    CountMiss(c, t, LinkOpen);
    CountMiss(c, t, LinkHttp);
    CountMiss(c, t, DoubleOpen);
    CountMiss(c, t, DoubleLinkHttp);
  }

  /** Every link target the marker-free rewriter moves up gains exactly `../`, three characters. */
  lemma {:induction false} MarkdownMarkerlessLength(s: string)
    ensures |MarkdownMarkerless(s)| == |s| + 3 * LinkGain(s)
    decreases |s|
  {
    if |s| > 0 {
      if LinkHttp <= s {
        var t := s[|LinkHttp|..];
        PrefixSplit(LinkHttp, s);
        GainLinkHttp(t);
        MarkdownMarkerlessLength(t);
      } else if DoubleOpen <= s {
        var t := s[|DoubleOpen|..];
        PrefixSplit(DoubleOpen, s);
        GainDoubleOpen(t);
        MarkdownMarkerlessLength(t);
      } else if LinkOpen <= s {
        var t := s[|LinkOpen|..];
        PrefixSplit(LinkOpen, s);
        GainRelative(t);
        MarkdownMarkerlessLength(t);
      } else {
        var t := s[1..];
        PrefixSplit([s[0]], s);
        GainOther(s[0], t);
        MarkdownMarkerlessLength(t);
      }
    }
  }

  /** For marker-free input, MarkdownPostprocessing adds `../` (3 characters) per relative link target. */
  lemma MarkdownLength(s: string)
    requires !Contains(s, LinkHttpMarker) && !Contains(s, DoubleOpenMarker)
    ensures |MarkdownPostprocessing(s)| == |s| + 3 * LinkGain(s)
  {
    MarkdownMarkerFree(s);
    MarkdownMarkerlessLength(s);
  }
}
