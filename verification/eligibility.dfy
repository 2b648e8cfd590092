/** Which directory entries the converter attempts: those whose lower-cased
    name ends with one of the allowed image extensions. */
module Eligibility {
  import opened Text

  /** The `allowed_ext` tuple, in its source order. */
  const AllowedExtensions: seq<Str> := [".jpg", ".jpeg", ".png", ".webp"]

  /** `str.endswith` with a tuple: the suffixes are tried in order and the
      answer is true as soon as one matches. */
  predicate EndsWithAny(s: Str, suffixes: seq<Str>)
    decreases |suffixes|
  {
    |suffixes| > 0 && (EndsWith(s, suffixes[0]) || EndsWithAny(s, suffixes[1..]))
  }

  /** The ordered tuple test means the same as "some suffix matches". */
  lemma {:induction false} EndsWithAnyIff(s: Str, suffixes: seq<Str>)
    ensures EndsWithAny(s, suffixes) <==> exists e :: e in suffixes && EndsWith(s, e)
    decreases |suffixes|
  {
    if |suffixes| > 0 {
      EndsWithAnyIff(s, suffixes[1..]);
      assert forall e :: e in suffixes <==> e == suffixes[0] || e in suffixes[1..];
    }
  }

  /** `filename.lower().endswith(allowed_ext)`. */
  predicate IsEligible(name: Str)
    ensures IsEligible(name) ==> |name| >= 4
  {
    EndsWithAnyIff(Lower(name), AllowedExtensions);
    EndsWithAny(Lower(name), AllowedExtensions)
  }

  /** A name is attempted exactly when its lower-cased form ends with one of
      `.jpg`, `.jpeg`, `.png`, `.webp`. */
  lemma EligibleIff(name: Str)
    ensures IsEligible(name) <==> exists e :: e in AllowedExtensions && EndsWith(Lower(name), e)
  {
    EndsWithAnyIff(Lower(name), AllowedExtensions);
  }

  /** The test ignores case: names that lower-case alike are treated alike,
      and a name is treated like its lower-cased form. */
  lemma EligibleIgnoresCase(a: Str, b: Str)
    requires Lower(a) == Lower(b)
    ensures IsEligible(a) <==> IsEligible(b)
    ensures IsEligible(a) <==> IsEligible(Lower(a))
  {
    LowerIdempotent(a);
  }

  /** `A.JPG` and `a.jpg` are both attempted, and so is `photo.JPEG`. */
  lemma EligibleExamples()
    ensures IsEligible("A.JPG") && IsEligible("a.jpg") && IsEligible("photo.JPEG")
  {
    assert Lower("A.JPG") == "a.jpg";
    assert EndsWith(Lower("A.JPG"), ".jpg");
    EligibleIff("A.JPG");
    assert Lower("a.jpg") == "a.jpg";
    EligibleIff("a.jpg");
    assert Lower("photo.JPEG") == "photo.jpeg";
    assert EndsWith(Lower("photo.JPEG"), ".jpeg");
    EligibleIff("photo.JPEG");
  }

  /** `notes.txt` is not attempted. */
  lemma IneligibleExample()
    ensures !IsEligible("notes.txt")
  {
    var l := Lower("notes.txt");
    assert l == "notes.txt";
    EligibleIff("notes.txt");
    forall e | e in AllowedExtensions
      ensures !EndsWith(l, e)
    {
      assert l[|l| - 1] == 't';
    }
  }

  /** The shape every allowed extension has: a dot followed by small letters. */
  lemma AllowedExtensionShape(e: Str)
    requires e in AllowedExtensions
    ensures |e| >= 2 && e[0] == '.'
    ensures forall k :: 1 <= k < |e| ==> 'a' <= e[k] <= 'z'
  {
  }
}
