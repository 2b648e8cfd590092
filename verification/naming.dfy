/** How an eligible entry's output path is derived: its stem (the name without
    its final extension), `.webp` appended, joined under the output folder. */
module Naming {
  import opened Text
  import opened Paths
  import opened Eligibility

  /** The suffix every output name gets. */
  const TargetExtension: Str := ".webp"

  /** `os.path.join(output_folder, base_name + ".webp")` with
      `base_name = os.path.splitext(filename)[0]`. */
  function OutputPath(outputFolder: Str, filename: Str): (r: Str)
    ensures EndsWith(r, Stem(filename) + TargetExtension)
    ensures EndsWith(r, TargetExtension)
  {
    Join(outputFolder, Stem(filename) + TargetExtension)
  }

  /** What lower-casing keeps: a character that lowers to a dot is a dot, and
      one that lowers to a small letter is neither a dot nor a separator. */
  lemma LowerCharKeepsSeparators(c: char)
    ensures LowerChar(c) == ExtSep ==> c == ExtSep
    ensures 'a' <= LowerChar(c) <= 'z' ==> c != ExtSep && c != Sep
  {
  }

  /** For an eligible entry name (no separator in it) whose lower-cased form
      ends with the allowed extension `e`, the stem is the name with that
      extension cut off, unless everything before the extension is dots, in
      which case the whole name is kept. */
  lemma StemOfEligible(name: Str, e: Str)
    requires Sep !in name
    requires e in AllowedExtensions && EndsWith(Lower(name), e)
    ensures var n := |name| - |e|;
            && (!OnlyDots(name, 0, n) ==> Stem(name) == name[..n])
            && (OnlyDots(name, 0, n) ==> Stem(name) == name)
  {
    var n := |name| - |e|;
    var l := Lower(name);
    AllowedExtensionShape(e);
    assert l[n..] == e;
    assert l[n] == e[0] == ExtSep;
    LowerCharKeepsSeparators(name[n]);
    forall j | n < j < |name|
      ensures name[j] != ExtSep
    {
      assert l[j] == e[j - n];
      LowerCharKeepsSeparators(name[j]);
    }
    LastIndexOfIs(name, ExtSep, n);
    assert LastIndexOf(name, Sep) == -1;
  }

  /** `photo.JPEG` has stem `photo`. */
  lemma StemExampleUpperCase()
    ensures Stem("photo.JPEG") == "photo"
  {
    var name := "photo.JPEG";
    assert Lower(name)[5..] == ".jpeg";
    StemOfEligible(name, ".jpeg");
    assert name[0] != ExtSep;
  }

  /** `a.b.png` keeps its earlier dot: its stem is `a.b`. */
  lemma StemExampleInnerDot()
    ensures Stem("a.b.png") == "a.b"
  {
    var name := "a.b.png";
    assert Lower(name)[3..] == ".png";
    StemOfEligible(name, ".png");
    assert name[0] != ExtSep;
  }

  /** The dot-only name `.png` keeps its whole name as its stem. */
  lemma StemExampleLeadingDot()
    ensures Stem(".png") == ".png"
  {
    var name := ".png";
    assert Lower(name)[0..] == ".png";
    StemOfEligible(name, ".png");
  }

  /** The output path is a function of the stem alone. */
  lemma OutputDependsOnlyOnStem(outputFolder: Str, a: Str, b: Str)
    requires Stem(a) == Stem(b)
    ensures OutputPath(outputFolder, a) == OutputPath(outputFolder, b)
  {
  }

  /** `x.jpg` and `x.png` both have stem `x`. */
  lemma StemExamplesSameStem()
    ensures Stem("x.jpg") == "x" && Stem("x.png") == "x"
  {
    var jpg, png := "x.jpg", "x.png";
    assert Lower(jpg)[1..] == ".jpg";
    StemOfEligible(jpg, ".jpg");
    assert jpg[0] != ExtSep;
    assert Lower(png)[1..] == ".png";
    StemOfEligible(png, ".png");
    assert png[0] != ExtSep;
  }

  /** `x.jpg` and `x.png` are both written to `x.webp` in the output folder. */
  lemma SameStemCollides(outputFolder: Str)
    ensures OutputPath(outputFolder, "x.jpg") == Join(outputFolder, "x.webp")
    ensures OutputPath(outputFolder, "x.png") == Join(outputFolder, "x.webp")
  {
    StemExamplesSameStem();
    assert "x" + TargetExtension == "x.webp";
  }

  /** For an ordinary folder and entry name the output path is
      `folder/stem.webp`. */
  lemma OutputPathShape(outputFolder: Str, filename: Str)
    requires |outputFolder| > 0 && outputFolder[|outputFolder| - 1] != Sep
    requires Sep !in filename
    ensures OutputPath(outputFolder, filename) == outputFolder + [Sep] + Stem(filename) + TargetExtension
  {
    var stem := Stem(filename);
    assert stem == filename[..|stem|];
    if |stem| > 0 {
      assert stem[0] == filename[0];
    }
  }
}
