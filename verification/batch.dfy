/** The whole run: every eligible entry of the input folder's listing is
    attempted once, in listing order, and a failure on one entry is recorded
    for that entry alone. */
module Batch {
  import opened Results
  import opened Text
  import opened Eligibility
  import opened Paths
  import opened Naming
  import opened Converter

  /** The entries of `listing` that pass the extension test, in listing order. */
  function Eligible(listing: seq<Str>): (r: seq<Str>)
    ensures |r| <= |listing|
    decreases |listing|
  {
    if |listing| == 0 then []
    else Eligible(listing[..|listing| - 1]) + Keep(listing[|listing| - 1])
  }

  /** One entry's contribution to `Eligible`. */
  function Keep(name: Str): seq<Str> {
    if IsEligible(name) then [name] else []
  }

  /** The filter keeps exactly the eligible entries, each as often as the
      listing holds it. */
  lemma {:induction false} EligibleContents(listing: seq<Str>)
    ensures forall x :: x in Eligible(listing) <==> x in listing && IsEligible(x)
    ensures forall x :: multiset(Eligible(listing))[x] == if IsEligible(x) then multiset(listing)[x] else 0
    decreases |listing|
  {
    if |listing| > 0 {
      var prefix, last := listing[..|listing| - 1], listing[|listing| - 1];
      EligibleContents(prefix);
      assert listing == prefix + [last];
      assert multiset(listing) == multiset(prefix) + multiset{last};
    }
  }

  /** One entry's contribution to `Run`. */
  function Step<Img>(codec: Codec<Img>, cfg: Config, name: Str): seq<Attempt<Img>> {
    if IsEligible(name) then [ConvertOne(codec, cfg, name)] else []
  }

  /** The attempts of a run over `listing`, as the loop builds them: one per
      eligible entry. */
  function Run<Img>(codec: Codec<Img>, cfg: Config, listing: seq<Str>): (r: seq<Attempt<Img>>)
    ensures |r| == |Eligible(listing)|
    decreases |listing|
  {
    if |listing| == 0 then []
    else Run(codec, cfg, listing[..|listing| - 1]) + Step(codec, cfg, listing[|listing| - 1])
  }

  /** Attempt `i` of a run is the single-entry attempt on the `i`-th eligible
      entry, whatever happened to the other entries, assuming no file saved
      in the run is opened later in it. */
  lemma {:induction false} RunAttempts<Img>(codec: Codec<Img>, cfg: Config, listing: seq<Str>)
    ensures forall i :: 0 <= i < |Run(codec, cfg, listing)| ==>
              Run(codec, cfg, listing)[i] == ConvertOne(codec, cfg, Eligible(listing)[i])
    decreases |listing|
  {
    if |listing| > 0 {
      var prefix := listing[..|listing| - 1];
      RunAttempts(codec, cfg, prefix);
      var r, rp := Run(codec, cfg, listing), Run(codec, cfg, prefix);
      var e, ep := Eligible(listing), Eligible(prefix);
      forall i | 0 <= i < |r| ensures r[i] == ConvertOne(codec, cfg, e[i]) {
        if i < |rp| {
          assert r[i] == rp[i] && e[i] == ep[i];
        }
      }
    }
  }

  /** `convert_to_webp` over a given directory listing: the loop with the
      `try`/`except` around each eligible entry. It always finishes, and its
      result is exactly `Run`. */
  method ConvertToWebp<Img>(codec: Codec<Img>, cfg: Config, listing: seq<Str>)
    returns (attempts: seq<Attempt<Img>>)
    ensures attempts == Run(codec, cfg, listing)
  {
    attempts := [];
    var i := 0;
    while i < |listing|
      invariant 0 <= i <= |listing|
      invariant attempts == Run(codec, cfg, listing[..i])
    {
      var filename := listing[i];
      assert listing[..i + 1][..i] == listing[..i];
      if IsEligible(filename) {
        var attempt := ConvertOne(codec, cfg, filename);
        attempts := attempts + [attempt];
      }
      i := i + 1;
    }
    assert listing[..i] == listing;
  }

  /** Filtering a concatenation filters each part: listing order is kept. */
  lemma {:induction false} EligibleAppend(a: seq<Str>, b: seq<Str>)
    ensures Eligible(a + b) == Eligible(a) + Eligible(b)
    decreases |b|
  {
    if |b| > 0 {
      var b' := b[..|b| - 1];
      assert (a + b)[..|a + b| - 1] == a + b';
      assert (a + b)[|a + b| - 1] == b[|b| - 1];
      EligibleAppend(a, b');
    } else {
      assert a + b == a;
    }
  }

  /** The attempts on a listing split in two are the attempts on the first
      part followed by those on the second: what happens to earlier entries
      has no effect on later ones, assuming no file saved in the run is
      opened later in it. */
  lemma {:induction false} RunAppend<Img>(codec: Codec<Img>, cfg: Config, a: seq<Str>, b: seq<Str>)
    ensures Run(codec, cfg, a + b) == Run(codec, cfg, a) + Run(codec, cfg, b)
    decreases |b|
  {
    if |b| > 0 {
      var b' := b[..|b| - 1];
      assert (a + b)[..|a + b| - 1] == a + b';
      assert (a + b)[|a + b| - 1] == b[|b| - 1];
      RunAppend(codec, cfg, a, b');
    } else {
      assert a + b == a;
    }
  }

  /** The entry names of a sequence of attempts, in order. */
  function Filenames<Img>(s: seq<Attempt<Img>>): (r: seq<Str>)
    ensures |r| == |s|
    ensures forall i :: 0 <= i < |s| ==> r[i] == s[i].filename
  {
    seq(|s|, i requires 0 <= i < |s| => s[i].filename)
  }

  /** The attempted names are the eligible entries, each once per listing
      occurrence and in listing order. */
  lemma RunFilenames<Img>(codec: Codec<Img>, cfg: Config, listing: seq<Str>)
    ensures Filenames(Run(codec, cfg, listing)) == Eligible(listing)
  {
    var r := Run(codec, cfg, listing);
    var e := Eligible(listing);
    RunAttempts(codec, cfg, listing);
    forall i | 0 <= i < |e| ensures Filenames(r)[i] == e[i] {
      assert r[i] == ConvertOne(codec, cfg, e[i]);
    }
  }

  /** An entry is attempted exactly when it is in the listing and passes the
      extension test; other entries leave no trace in the result. */
  lemma AttemptedIffEligible<Img>(codec: Codec<Img>, cfg: Config, listing: seq<Str>, name: Str)
    ensures name in Filenames(Run(codec, cfg, listing)) <==> name in listing && IsEligible(name)
  {
    RunFilenames(codec, cfg, listing);
    EligibleContents(listing);
  }

  /** Every save in a run asks for WebP at the run's quality, unchanged, and
      `method` 3, at the output path derived from the entry's stem. */
  lemma SaveArguments<Img>(codec: Codec<Img>, cfg: Config, listing: seq<Str>)
    ensures forall a :: a in Run(codec, cfg, listing) && a.request.Some? ==>
              && a.request.value.format == SaveFormat
              && a.request.value.quality == cfg.quality
              && a.request.value.compressionMethod == SaveMethod
              && a.request.value.path == OutputPath(cfg.outputFolder, a.filename)
  {
    RunAttempts(codec, cfg, listing);
  }

  /** The number of attempts with the given status kind. */
  function CountConverted<Img>(s: seq<Attempt<Img>>): (n: nat)
    ensures n <= |s|
    ensures n == |s| <==> forall i :: 0 <= i < |s| ==> s[i].status.Converted?
    decreases |s|
  {
    if |s| == 0 then 0
    else CountConverted(s[..|s| - 1]) + (if s[|s| - 1].status.Converted? then 1 else 0)
  }

  /** The number of attempts that failed. */
  function CountFailed<Img>(s: seq<Attempt<Img>>): (n: nat)
    ensures n + CountConverted(s) == |s|
    decreases |s|
  {
    if |s| == 0 then 0
    else CountFailed(s[..|s| - 1]) + (if s[|s| - 1].status.Failed? then 1 else 0)
  }

  /** Attempts that all succeed except one give one failure and the rest
      converted. */
  lemma {:induction false} CountsWithOneFailure<Img>(s: seq<Attempt<Img>>, k: int)
    requires 0 <= k < |s| && s[k].status.Failed?
    requires forall i :: 0 <= i < |s| && i != k ==> s[i].status.Converted?
    ensures CountFailed(s) == 1 && CountConverted(s) == |s| - 1
    decreases |s|
  {
    var p := s[..|s| - 1];
    if k == |s| - 1 {
      assert forall i :: 0 <= i < |p| ==> p[i].status.Converted? by {
        forall i | 0 <= i < |p| ensures p[i].status.Converted? {
          assert p[i] == s[i];
        }
      }
    } else {
      assert p[k] == s[k];
      forall i | 0 <= i < |p| && i != k ensures p[i].status.Converted? {
        assert p[i] == s[i];
      }
      CountsWithOneFailure(p, k);
    }
  }

  /** Fault isolation: when one eligible entry fails and every other one
      converts, the run records exactly one failure and converts the rest. */
  lemma OneBadEntry<Img>(codec: Codec<Img>, cfg: Config, listing: seq<Str>, k: int)
    ensures var e := Eligible(listing);
            && 0 <= k < |e|
            && ConvertOne(codec, cfg, e[k]).status.Failed?
            && (forall i :: 0 <= i < |e| && i != k ==> ConvertOne(codec, cfg, e[i]).status.Converted?)
            ==> && CountFailed(Run(codec, cfg, listing)) == 1
                && CountConverted(Run(codec, cfg, listing)) == |e| - 1
  {
    var e := Eligible(listing);
    if && 0 <= k < |e|
       && ConvertOne(codec, cfg, e[k]).status.Failed?
       && (forall i :: 0 <= i < |e| && i != k ==> ConvertOne(codec, cfg, e[i]).status.Converted?)
    {
      var r := Run(codec, cfg, listing);
      RunAttempts(codec, cfg, listing);
      assert r[k] == ConvertOne(codec, cfg, e[k]);
      forall i | 0 <= i < |r| && i != k ensures r[i].status.Converted? {
        assert r[i] == ConvertOne(codec, cfg, e[i]);
      }
      CountsWithOneFailure(r, k);
    }
  }

  /** The save that wrote a file, if the attempt converted. */
  function Written<Img>(a: Attempt<Img>): Option<SaveRequest<Img>> {
    if a.status.Converted? then a.request else None
  }

  /** The output folder after a run that found it holding `init`: each
      converted attempt writes its image at its path, overwriting what was
      there before. Files are keyed by their exact path string, and a failed
      save writes nothing. */
  function Outputs<Img>(init: map<Str, Img>, s: seq<Attempt<Img>>): (m: map<Str, Img>)
    ensures init.Keys <= m.Keys
    decreases |s|
  {
    if |s| == 0 then init
    else
      var m := Outputs(init, s[..|s| - 1]);
      match Written(s[|s| - 1])
      case None => m
      case Some(req) => m[req.path := req.image]
  }

  /** Some attempt of `s` wrote to path `p`. */
  ghost predicate WroteTo<Img>(s: seq<Attempt<Img>>, p: Str) {
    exists i :: 0 <= i < |s| && Written(s[i]).Some? && Written(s[i]).value.path == p
  }

  /** Attempt `i` of `s` is the last one that wrote to path `p`. */
  ghost predicate LastWriter<Img>(s: seq<Attempt<Img>>, p: Str, i: int) {
    && 0 <= i < |s| && Written(s[i]).Some? && Written(s[i]).value.path == p
    && forall j :: i < j < |s| ==> !(Written(s[j]).Some? && Written(s[j]).value.path == p)
  }

  /** A path some converted attempt wrote holds the image of the last such
      attempt. */
  lemma {:induction false} LastWriteWins<Img>(init: map<Str, Img>, s: seq<Attempt<Img>>, p: Str)
    ensures WroteTo(s, p) ==> p in Outputs(init, s)
    ensures WroteTo(s, p) ==>
              exists i :: LastWriter(s, p, i) && Written(s[i]).value.image == Outputs(init, s)[p]
    decreases |s|
  {
    if |s| > 0 && WroteTo(s, p) {
      var prefix, last := s[..|s| - 1], s[|s| - 1];
      if Written(last).Some? && Written(last).value.path == p {
        assert LastWriter(s, p, |s| - 1);
      } else {
        var i :| 0 <= i < |s| && Written(s[i]).Some? && Written(s[i]).value.path == p;
        assert i < |s| - 1 && prefix[i] == s[i];
        assert WroteTo(prefix, p);
        LastWriteWins(init, prefix, p);
        var k :| LastWriter(prefix, p, k) && Written(prefix[k]).value.image == Outputs(init, prefix)[p];
        assert forall j :: 0 <= j < |prefix| ==> prefix[j] == s[j];
        assert LastWriter(s, p, k);
      }
    }
  }

  /** A path no converted attempt wrote keeps exactly what the folder held
      before the run: present with the same image, or absent. */
  lemma {:induction false} UnwrittenPathKept<Img>(init: map<Str, Img>, s: seq<Attempt<Img>>, p: Str)
    requires !WroteTo(s, p)
    ensures p in Outputs(init, s) <==> p in init
    ensures p in init ==> Outputs(init, s)[p] == init[p]
    decreases |s|
  {
    if |s| > 0 {
      var prefix := s[..|s| - 1];
      forall i | 0 <= i < |prefix|
        ensures !(Written(prefix[i]).Some? && Written(prefix[i]).value.path == p)
      {
        assert prefix[i] == s[i];
      }
      UnwrittenPathKept(init, prefix, p);
    }
  }

  /** At most one attempt is the last writer of a path. */
  lemma LastWriterUnique<Img>(s: seq<Attempt<Img>>, p: Str, i: int, j: int)
    requires LastWriter(s, p, i) && LastWriter(s, p, j)
    ensures i == j
  {
  }

  /** The last attempt that wrote a path decides what it holds. */
  lemma LastWriterHolds<Img>(init: map<Str, Img>, s: seq<Attempt<Img>>, p: Str, j: int)
    requires LastWriter(s, p, j)
    ensures p in Outputs(init, s) && Outputs(init, s)[p] == Written(s[j]).value.image
  {
    assert WroteTo(s, p);
    LastWriteWins(init, s, p);
    var w :| LastWriter(s, p, w) && Written(s[w]).value.image == Outputs(init, s)[p];
    LastWriterUnique(s, p, w, j);
  }

  /** `x.jpg` and `x.png` are both eligible. */
  lemma CollidingNamesEligible()
    ensures IsEligible("x.jpg") && IsEligible("x.png")
  {
    assert Lower("x.jpg")[1..] == ".jpg";
    EligibleIff("x.jpg");
    assert Lower("x.png")[1..] == ".png";
    EligibleIff("x.png");
  }

  /** A run over one entry is that entry's step. */
  lemma RunOfOne<Img>(codec: Codec<Img>, cfg: Config, name: Str)
    ensures Run(codec, cfg, [name]) == Step(codec, cfg, name)
  {
    assert [name][..0] == [];
  }

  /** A run over two entries is the steps of each, in order. */
  lemma RunOfTwo<Img>(codec: Codec<Img>, cfg: Config, first: Str, second: Str)
    ensures Run(codec, cfg, [first, second]) == Step(codec, cfg, first) + Step(codec, cfg, second)
  {
    assert [first, second] == [first] + [second];
    RunAppend(codec, cfg, [first], [second]);
    RunOfOne(codec, cfg, first);
    RunOfOne(codec, cfg, second);
  }

  /** A converted final attempt leaves its image at its path. */
  lemma FinalWriteStays<Img>(init: map<Str, Img>, s: seq<Attempt<Img>>)
    requires |s| > 0 && Written(s[|s| - 1]).Some?
    ensures Written(s[|s| - 1]).value.path in Outputs(init, s)
    ensures Outputs(init, s)[Written(s[|s| - 1]).value.path] == Written(s[|s| - 1]).value.image
  {
  }

  /** The attempt on `name` converts and saves to `p`. */
  predicate ConvertsTo<Img>(codec: Codec<Img>, cfg: Config, name: Str, p: Str)
  {
    var a := ConvertOne(codec, cfg, name);
    a.status.Converted? && a.outputPath == p
  }

  /** No entry of `e` after position `j` converts to `p`. */
  predicate NoLaterWrite<Img>(codec: Codec<Img>, cfg: Config, e: seq<Str>, j: nat, p: Str)
  {
    forall k :: j < k < |e| ==> !ConvertsTo(codec, cfg, e[k], p)
  }

  /** Attempt `j` of a run is the single-entry attempt on entry `j`, and it is
      the last writer of `p` when that entry converts to `p` and no later
      entry converts to `p`. */
  lemma RunLastWriter<Img>(codec: Codec<Img>, cfg: Config, listing: seq<Str>, j: int, p: Str)
    requires 0 <= j < |Eligible(listing)|
    ensures Run(codec, cfg, listing)[j] == ConvertOne(codec, cfg, Eligible(listing)[j])
    ensures var e := Eligible(listing);
            ConvertsTo(codec, cfg, e[j], p) && NoLaterWrite(codec, cfg, e, j, p) ==>
              LastWriter(Run(codec, cfg, listing), p, j)
  {
    var e := Eligible(listing);
    var r := Run(codec, cfg, listing);
    RunAttempts(codec, cfg, listing);
    assert r[j] == ConvertOne(codec, cfg, e[j]);
    if ConvertsTo(codec, cfg, e[j], p) && NoLaterWrite(codec, cfg, e, j, p) {
      forall k | j < k < |r| ensures !(Written(r[k]).Some? && Written(r[k]).value.path == p) {
        assert r[k] == ConvertOne(codec, cfg, e[k]);
        assert !ConvertsTo(codec, cfg, e[k], p);
      }
    }
  }

  /** Two eligible entries with the same stem, anywhere in a listing: when the
      later one converts and no attempt after it writes their shared output
      path, that path holds the later entry's image after the run, whatever
      became of the earlier one and whatever the folder held before. */
  lemma SameStemLaterWins<Img>(codec: Codec<Img>, cfg: Config, listing: seq<Str>,
                               init: map<Str, Img>, i: int, j: int)
    requires 0 <= i < j < |Eligible(listing)|
    ensures var e := Eligible(listing);
            var out := Outputs(init, Run(codec, cfg, listing));
            var p := OutputPath(cfg.outputFolder, e[i]);
            && Stem(e[i]) == Stem(e[j])
            && ConvertOne(codec, cfg, e[j]).status.Converted?
            && NoLaterWrite(codec, cfg, e, j, p)
            ==> p in out && out[p] == ConvertOne(codec, cfg, e[j]).request.value.image
  {
    var e := Eligible(listing);
    var r := Run(codec, cfg, listing);
    var p := OutputPath(cfg.outputFolder, e[i]);
    if Stem(e[i]) == Stem(e[j]) && ConvertOne(codec, cfg, e[j]).status.Converted? && NoLaterWrite(codec, cfg, e, j, p) {
      OutputDependsOnlyOnStem(cfg.outputFolder, e[i], e[j]);
      RunLastWriter(codec, cfg, listing, j, p);
      LastWriterHolds(init, r, p, j);
    }
  }

  /** In a listing of exactly two eligible entries with the same stem, when the
      second converts its image is what their shared path holds. */
  lemma PairLaterWins<Img>(codec: Codec<Img>, cfg: Config, init: map<Str, Img>, first: Str, second: Str)
    requires IsEligible(first) && IsEligible(second) && Stem(first) == Stem(second)
    ensures var out := Outputs(init, Run(codec, cfg, [first, second]));
            var p := OutputPath(cfg.outputFolder, first);
            ConvertOne(codec, cfg, second).status.Converted? ==>
              p in out && out[p] == ConvertOne(codec, cfg, second).request.value.image
  {
    var a1, a2 := ConvertOne(codec, cfg, first), ConvertOne(codec, cfg, second);
    RunOfTwo(codec, cfg, first, second);
    var r := Run(codec, cfg, [first, second]);
    assert r == [a1, a2];
    if a2.status.Converted? {
      FinalWriteStays(init, r);
    }
  }

  /** `x.jpg` then `x.png`: when `x.png` converts, `x.webp` holds its image. */
  lemma LaterEntryOverwrites<Img>(codec: Codec<Img>, cfg: Config, init: map<Str, Img>)
    ensures var out := Outputs(init, Run(codec, cfg, ["x.jpg", "x.png"]));
            ConvertOne(codec, cfg, "x.png").status.Converted? ==>
              && Join(cfg.outputFolder, "x.webp") in out
              && out[Join(cfg.outputFolder, "x.webp")] == ConvertOne(codec, cfg, "x.png").request.value.image
  {
    CollidingNamesEligible();
    StemExamplesSameStem();
    SameStemCollides(cfg.outputFolder);
    PairLaterWins(codec, cfg, init, "x.jpg", "x.png");
  }
}
