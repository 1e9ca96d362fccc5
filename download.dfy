/** How `download_file` names the file it writes: the filename derived from
    the URL's path, and the numbered variant chosen when that name is taken.
    The destination directory is represented by the finite set of names
    already present in it. */
module Download {
  import opened Text
  import opened PosixPath

  /** `AUDIO_EXTENSIONS`, in the source's order. */
  const AudioExtensions: seq<string> := [".mp3", ".wav", ".ogg", ".flac", ".aac", ".m4a"]

  /** `any(filename.lower().endswith(ext) for ext in AUDIO_EXTENSIONS)` */
  predicate HasAudioExtension(filename: string)
    ensures HasAudioExtension(filename) ==> |filename| >= 4
  {
    AnyEndsWithSome(Lower(filename), AudioExtensions);
    assert forall i :: 0 <= i < |AudioExtensions| ==> |AudioExtensions[i]| >= 4;
    AnyEndsWith(Lower(filename), AudioExtensions)
  }

  /** A name has an audio extension exactly when its lower-cased form ends
      in one of the six. */
  lemma AudioExtensionOf(filename: string)
    ensures HasAudioExtension(filename) <==>
      exists i :: 0 <= i < |AudioExtensions| && EndsWith(Lower(filename), AudioExtensions[i])
  {
    AnyEndsWithSome(Lower(filename), AudioExtensions);
  }

  /** Every audio extension is a dot followed by lower-case letters and digits, without another dot. */
  lemma ExtensionShape(i: nat)
    requires i < |AudioExtensions|
    ensures |AudioExtensions[i]| >= 2 && AudioExtensions[i][0] == '.'
    ensures '.' !in AudioExtensions[i][1..]
  {
  }

  /** The filename chosen from the path of the download URL, before collisions. */
  function DeriveFilename(urlPath: string): (filename: string)
    ensures HasAudioExtension(filename)
    ensures IsComponent(filename)
    ensures Name(urlPath) == "" ==> filename == "audio.mp3"
    ensures Name(urlPath) != "" ==>
      (filename == Name(urlPath) <==> HasAudioExtension(Name(urlPath)))
    ensures Name(urlPath) != "" && !HasAudioExtension(Name(urlPath)) ==>
      filename == Name(urlPath) + ".mp3"
  {
    var name := Name(urlPath);
    var filename := if name == "" then "audio" else name;
    NoExtensionByLastChar("audio");
    if HasAudioExtension(filename) then filename
    else
      MpThreeAppended(filename);
      // the source's `filename or 'audio'` here sees a non-empty name
      (if filename == "" then "audio" else filename) + ".mp3"
  }

  /** Appending `.mp3` always gives a name with an audio extension. */
  lemma MpThreeAppended(name: string)
    ensures HasAudioExtension(name + ".mp3")
  {
    LowerAppend(name, ".mp3");
    assert Lower(".mp3") == ".mp3";
    EndsWithAppend(Lower(name), ".mp3", ".mp3");
    AnyEndsWithSome(Lower(name + ".mp3"), AudioExtensions);
    assert AudioExtensions[0] == ".mp3";
  }

  /** Deriving is idempotent: the derived filename, as the last component of
      any path, derives to itself. */
  lemma DeriveIdempotent(dir: string, urlPath: string)
    ensures DeriveFilename(dir + "/" + DeriveFilename(urlPath)) == DeriveFilename(urlPath)
    ensures DeriveFilename(DeriveFilename(urlPath)) == DeriveFilename(urlPath)
  {
    NameOfJoin(dir, DeriveFilename(urlPath));
  }

  /** `f"{stem}-{counter}{suffix}"` */
  function Candidate(stem: string, suffix: string, counter: nat): (c: string)
    ensures |c| == |stem| + 1 + |Decimal(counter)| + |suffix|
  {
    stem + "-" + Decimal(counter) + suffix
  }

  /** A candidate is the stem, a hyphen, digits that read back as the
      counter, and the suffix. */
  lemma CandidateParts(stem: string, suffix: string, counter: nat)
    ensures var c := Candidate(stem, suffix, counter);
      && c[..|stem|] == stem && c[|stem|] == '-' && c[|c| - |suffix|..] == suffix
      && IsDigits(c[|stem| + 1..|c| - |suffix|])
      && ParseDecimal(c[|stem| + 1..|c| - |suffix|]) == counter
  {
    var c := Candidate(stem, suffix, counter);
    assert c[|stem| + 1..|c| - |suffix|] == Decimal(counter);
    ParseDecimalOfDecimal(counter);
  }

  /** `k` is the least counter from 1 on whose candidate name is free. */
  ghost predicate IsLeastFree(existing: set<string>, stem: string, suffix: string, k: nat)
  {
    && k >= 1
    && Candidate(stem, suffix, k) !in existing
    && forall j :: 1 <= j < k ==> Candidate(stem, suffix, j) in existing
  }

  /** Different counters give different candidates. */
  lemma CandidateInjective(stem: string, suffix: string, j: nat, k: nat)
    requires Candidate(stem, suffix, j) == Candidate(stem, suffix, k)
    ensures j == k
  {
    var c := Candidate(stem, suffix, j);
    var lo := |stem| + 1;
    assert |Decimal(j)| == |Decimal(k)|;
    assert c[lo..lo + |Decimal(j)|] == Decimal(j);
    assert Candidate(stem, suffix, k)[lo..lo + |Decimal(k)|] == Decimal(k);
    DecimalInjective(j, k);
  }

  /** The name examined in the n-th test of `destination.exists()`. */
  function Examined(base: string, n: nat): string
  {
    if n == 0 then base else Candidate(Stem(base), Suffix(base), n)
  }

  /** The names examined before the n-th test. */
  ghost function Tried(base: string, n: nat): set<string>
  {
    set j | 0 <= j < n :: Examined(base, j)
  }

  lemma TriedStep(base: string, n: nat)
    ensures Tried(base, n + 1) == Tried(base, n) + {Examined(base, n)}
  {
    forall u | u in Tried(base, n + 1) ensures u in Tried(base, n) + {Examined(base, n)} {
      var j :| 0 <= j < n + 1 && u == Examined(base, j);
      if j < n {
        assert Examined(base, j) in Tried(base, n);
      }
    }
    forall u | u in Tried(base, n) ensures u in Tried(base, n + 1) {
      var j :| 0 <= j < n && u == Examined(base, j);
      assert Examined(base, j) in Tried(base, n + 1);
    }
    assert Examined(base, n) in Tried(base, n + 1);
  }

  /** Each test examines a name not examined before. */
  lemma ExaminedFresh(base: string, n: nat)
    ensures Examined(base, n) !in Tried(base, n)
  {
    forall j | 0 <= j < n ensures Examined(base, j) != Examined(base, n) {
      if j == 0 {
        // the candidate is longer than stem + suffix, which is base
        assert |Examined(base, n)| > |Stem(base) + Suffix(base)|;
      } else if Examined(base, j) == Examined(base, n) {
        CandidateInjective(Stem(base), Suffix(base), j, n);
      }
    }
  }

  lemma {:induction false} TriedSize(base: string, n: nat)
    ensures |Tried(base, n)| == n
  {
    if n == 0 {
      assert Tried(base, 0) == {};
    } else {
      TriedSize(base, n - 1);
      TriedStep(base, n - 1);
      ExaminedFresh(base, n - 1);
    }
  }

  /** The search ends within as many tests as there are existing names: the
      taken base name and the k - 1 taken candidates are all distinct. */
  lemma CollisionBound(existing: set<string>, base: string, k: nat)
    requires base in existing
    requires IsLeastFree(existing, Stem(base), Suffix(base), k)
    ensures k <= |existing|
  {
    forall u | u in Tried(base, k) ensures u in existing {
      var j :| 0 <= j < k && u == Examined(base, j);
    }
    TriedSize(base, k);
    var rest := existing - Tried(base, k);
    assert existing == Tried(base, k) + rest;
    assert Tried(base, k) !! rest;
  }

  /** Lines 66-73 of `download_file`: the name written in a directory
      holding `existing`, starting from the derived `filename`. The source
      takes stem and suffix of `dest_dir / filename`; for a proper component
      they are those of `filename` itself (PosixPath.NameOfJoin). */
  method ResolveCollision(filename: string, existing: set<string>, overwrite: bool)
    returns (destination: string)
    requires IsComponent(filename)
    ensures overwrite || filename !in existing ==> destination == filename
    ensures !overwrite ==> destination !in existing
    ensures !overwrite && filename in existing ==>
      exists k :: IsLeastFree(existing, Stem(filename), Suffix(filename), k)
               && destination == Candidate(Stem(filename), Suffix(filename), k)
  {
    destination := filename;
    if destination in existing && !overwrite {
      var stem := Stem(destination);
      var suffix := Suffix(destination);
      var counter := 1;
      ghost var tried: set<string> := {};
      while destination in existing
        invariant counter >= 1
        invariant destination == Examined(filename, counter - 1)
        invariant tried == Tried(filename, counter - 1)
        invariant tried <= existing
        decreases existing - tried
      {
        ExaminedFresh(filename, counter - 1);
        TriedStep(filename, counter - 1);
        tried := tried + {destination};
        destination := Candidate(stem, suffix, counter);
        counter := counter + 1;
      }
      var k := counter - 1;
      forall j | 1 <= j < k ensures Candidate(stem, suffix, j) in existing {
        assert Examined(filename, j) in tried;
      }
      assert IsLeastFree(existing, stem, suffix, k);
    }
  }

  /** Lines 61-73 of `download_file`: the destination name in a directory
      holding `existing`, for a URL whose parsed path is `urlPath`. */
  method DownloadDestination(urlPath: string, existing: set<string>, overwrite: bool)
    returns (destination: string)
    ensures overwrite || DeriveFilename(urlPath) !in existing ==>
      destination == DeriveFilename(urlPath)
    ensures !overwrite ==> destination !in existing
    ensures !overwrite && DeriveFilename(urlPath) in existing ==>
      exists k :: IsLeastFree(existing, Stem(DeriveFilename(urlPath)), Suffix(DeriveFilename(urlPath)), k)
               && destination == Candidate(Stem(DeriveFilename(urlPath)), Suffix(DeriveFilename(urlPath)), k)
  {
    var filename := DeriveFilename(urlPath);
    destination := ResolveCollision(filename, existing, overwrite);
  }

  /** Candidates keep the file's audio extension whenever the name splits
      into a stem and a suffix. */
  lemma CandidateKeepsExtension(base: string, k: nat)
    requires HasAudioExtension(base) && HasSplit(base)
    ensures HasAudioExtension(Candidate(Stem(base), Suffix(base), k))
  {
    AnyEndsWithSome(Lower(base), AudioExtensions);
    var i :| 0 <= i < |AudioExtensions| && EndsWith(Lower(base), AudioExtensions[i]);
    var ext := AudioExtensions[i];
    ExtensionShape(i);
    var at := |base| - |ext|;
    assert Lower(base)[at..] == ext;
    assert base[at] == '.' by { assert Lower(base)[at] == '.'; }
    forall j | at < j < |base| ensures base[j] != '.' {
      assert Lower(base)[j] == ext[j - at];
      assert ext[j - at] in ext[1..];
    }
    assert LastDot(base) == at;
    LowerDrop(base, at);
    var front := Stem(base) + "-" + Decimal(k);
    assert Candidate(Stem(base), Suffix(base), k) == front + Suffix(base);
    LowerAppend(front, Suffix(base));
    EndsWithAppend(Lower(front), ext, ext);
    AnyEndsWithSome(Lower(Candidate(Stem(base), Suffix(base), k)), AudioExtensions);
  }

  /** A name whose last character ends no audio extension has none. */
  lemma NoExtensionByLastChar(name: string)
    requires name != []
    requires LowerChar(name[|name| - 1]) !in "3vgca"
    ensures !HasAudioExtension(name)
  {
    var low := Lower(name);
    AnyEndsWithSome(low, AudioExtensions);
    forall i | 0 <= i < |AudioExtensions| ensures !EndsWith(low, AudioExtensions[i]) {
      var ext := AudioExtensions[i];
      assert ext[|ext| - 1] in "3vgca";
      assert ext[|ext| - 1] != low[|low| - 1];
      assert |ext| <= |low| ==> low[|low| - |ext|..][|ext| - 1] == low[|low| - 1];
    }
  }

  /** A name that is a bare extension, such as `.mp3` from the URL path
      `/.mp3`, has no suffix for Path, so its numbered copies lose the
      extension: the first one is `.mp3-1`. */
  lemma BareExtensionCandidate()
    ensures HasAudioExtension(".mp3") && !HasSplit(".mp3")
    ensures Candidate(Stem(".mp3"), Suffix(".mp3"), 1) == ".mp3-1"
    ensures !HasAudioExtension(".mp3-1")
  {
    BareExtensionName();
    assert Stem(".mp3") == ".mp3" && Suffix(".mp3") == "";
    assert Decimal(1) == "1";
    NoExtensionByLastChar(".mp3-1");
  }

  lemma BareExtensionName()
    ensures HasAudioExtension(".mp3") && !HasSplit(".mp3")
  {
    MpThreeAppended("");
    assert "" + ".mp3" == ".mp3";
    BareExtensionLastDot();
  }

  lemma BareExtensionLastDot()
    ensures LastDot(".mp3") == 0
  {
    var s := ".mp3";
    assert s[0] == '.' && s[1] != '.' && s[2] != '.' && s[3] != '.';
  }

  /** Two downloads that derive `move.mp3`: the second one is written to `move-1.mp3`. */
  lemma SecondCopyNumbered()
    ensures Candidate(Stem("move.mp3"), Suffix("move.mp3"), 1) == "move-1.mp3"
    ensures IsLeastFree({"move.mp3"}, Stem("move.mp3"), Suffix("move.mp3"), 1)
  {
    assert LastDot("move.mp3") == 4 by { assert "move.mp3"[4] == '.'; }
    assert Decimal(1) == "1";
  }
}
