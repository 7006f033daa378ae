/**
 The destination name an upload is stored under, before percent-encoding: one
 leading slash stripped, doubled slashes collapsed in a single pass, and the
 local path's base name when no name is left.
 */
module DestinationName {
  import opened Common

  /** Removes one leading slash, if there is one (a substitution anchored at the start). */
  function StripLeadingSlash(s: string): (r: string)
    ensures s == r || s == "/" + r
    ensures |r| < |s| <==> |s| > 0 && s[0] == '/'
  {
    if |s| > 0 && s[0] == '/' then s[1..] else s
  }

  /**
   Replaces each `//` by `/`, scanning left to right over non-overlapping
   occurrences, the way a single global substitution does.
   */
  function CollapseSlashes(s: string): (r: string)
    ensures |r| <= |s|
    ensures HasDoubleSlash(s) ==> |r| < |s|
  {
    if |s| >= 2 && s[0] == '/' && s[1] == '/' then "/" + CollapseSlashes(s[2..])
    else if |s| == 0 then ""
    else [s[0]] + CollapseSlashes(s[1..])
  }

  /** `s` without its slashes. */
  function WithoutSlashes(s: string): (r: string)
    ensures '/' !in r
    ensures |r| <= |s|
  {
    if |s| == 0 then ""
    else if s[0] == '/' then WithoutSlashes(s[1..])
    else [s[0]] + WithoutSlashes(s[1..])
  }

  predicate HasDoubleSlash(s: string)
  {
    exists i :: 0 <= i < |s| - 1 && s[i] == '/' && s[i + 1] == '/'
  }

  /**
   Collapsing only ever drops slashes, never lengthens the name, empties only
   the empty name, and keeps a leading slash exactly when there was one.
   */
  lemma {:induction false} CollapseKeepsContent(s: string)
    ensures WithoutSlashes(CollapseSlashes(s)) == WithoutSlashes(s)
    ensures |CollapseSlashes(s)| <= |s|
    ensures CollapseSlashes(s) == "" <==> s == ""
    ensures |s| > 0 ==> (CollapseSlashes(s)[0] == '/' <==> s[0] == '/')
    decreases |s|
  {
    if |s| >= 2 && s[0] == '/' && s[1] == '/' {
      CollapseKeepsContent(s[2..]);
      assert WithoutSlashes(s) == WithoutSlashes(s[1..]) == WithoutSlashes(s[2..]);
      assert WithoutSlashes("/" + CollapseSlashes(s[2..])) == WithoutSlashes(CollapseSlashes(s[2..])) by {
        assert ("/" + CollapseSlashes(s[2..]))[1..] == CollapseSlashes(s[2..]);
      }
    } else if |s| == 0 {
    } else {
      CollapseKeepsContent(s[1..]);
      var c := [s[0]] + CollapseSlashes(s[1..]);
      assert c[1..] == CollapseSlashes(s[1..]);
    }
  }

  /** A name with no doubled slash is left unchanged. */
  lemma {:induction false} CollapseWithoutDoubleSlash(s: string)
    requires !HasDoubleSlash(s)
    ensures CollapseSlashes(s) == s
    decreases |s|
  {
    if |s| > 0 {
      assert !HasDoubleSlash(s[1..]) by {
        forall i | 0 <= i < |s[1..]| - 1
          ensures !(s[1..][i] == '/' && s[1..][i + 1] == '/')
        {
          assert s[1..][i] == s[i + 1] && s[1..][i + 1] == s[i + 2];
        }
      }
      CollapseWithoutDoubleSlash(s[1..]);
    }
  }

  /** `k` slashes. */
  function Slashes(k: nat): (r: string)
    ensures |r| == k && forall i :: 0 <= i < k ==> r[i] == '/'
  {
    if k == 0 then "" else "/" + Slashes(k - 1)
  }

  /**
   The single pass on a run: a maximal run of `k` slashes becomes a run of
   `k` halved, rounded up, and the text after the run is collapsed on its own.
   */
  lemma {:induction false} CollapseSlashRun(k: nat, t: string)
    requires |t| == 0 || t[0] != '/'
    ensures CollapseSlashes(Slashes(k) + t) == Slashes((k + 1) / 2) + CollapseSlashes(t)
    decreases k
  {
    var s := Slashes(k) + t;
    if k == 0 {
      assert s == t;
    } else if k == 1 {
      assert s == ['/'] + t;
      assert s[1..] == t;
    } else {
      assert s[0] == '/' && s[1] == '/';
      assert s[2..] == Slashes(k - 2) + t by {
        assert Slashes(k) == "/" + ("/" + Slashes(k - 2));
      }
      CollapseSlashRun(k - 2, t);
      assert (k - 2 + 1) / 2 + 1 == (k + 1) / 2;
      assert "/" + Slashes((k - 1) / 2) == Slashes((k + 1) / 2);
    }
  }

  /**
   The single pass on any other character: a character that is not a slash is
   kept, and the text after it is collapsed on its own. With `CollapseSlashRun`
   and the empty name, this fixes the result on every name.
   */
  lemma {:induction false} CollapseNonSlash(c: char, t: string)
    requires c != '/'
    ensures CollapseSlashes([c] + t) == [c] + CollapseSlashes(t)
  {
    assert ([c] + t)[1..] == t;
  }

  /** A single pass is not idempotent: a run of three slashes needs two passes. */
  lemma CollapseIsNotIdempotent()
    ensures CollapseSlashes("a///b") == "a//b"
    ensures CollapseSlashes(CollapseSlashes("a///b")) == "a/b"
  {
  }

  /** The final path component: everything after the last slash (empty when the path ends in one). */
  function Basename(path: string): (r: string)
    ensures '/' !in r
    ensures |r| <= |path| && r == path[|path| - |r|..]
    ensures |r| < |path| ==> path[|path| - |r| - 1] == '/'
  {
    if |path| == 0 then ""
    else if path[|path| - 1] == '/' then ""
    else Basename(path[..|path| - 1]) + [path[|path| - 1]]
  }

  /**
   The name upload_file stores a file under, before encoding. `mapped` says
   whether the file could be memory-mapped; the substitutions run only after
   that, and mapping an empty file fails. A given name is stripped and
   collapsed when the file was mapped and is kept as given otherwise (the
   failure is swallowed). When no name is given (the substitutions fail on
   `None`, and that failure is swallowed too) or nothing is left, the base name
   of the local path is used instead, unnormalised.
   */
  function NormalizedName(path: string, filename: Option<string>, mapped: bool): (r: string)
    ensures mapped && filename.Some? && filename.value != "" && filename.value != "/" ==>
      r == CollapseSlashes(StripLeadingSlash(filename.value)) && |r| <= |filename.value| && r != ""
    ensures !mapped && filename.Some? && filename.value != "" ==> r == filename.value
    ensures filename.Some? ==> |r| <= |filename.value| || r == Basename(path)
    ensures filename.None? || filename.value == "" || (mapped && filename.value == "/") ==> r == Basename(path)
    ensures r == Basename(path) || WithoutSlashes(r) == WithoutSlashes(filename.value)
  {
    match filename
    case None => Basename(path)
    case Some(n) =>
      if !mapped then
        if n == "" then Basename(path) else n
      else
        var stripped := StripLeadingSlash(n);
        CollapseKeepsContent(stripped);
        var collapsed := CollapseSlashes(stripped);
        if collapsed == "" then Basename(path) else collapsed
  }

  /** The same given name is normalised for a mapped file and sent as given for an empty one. */
  lemma EmptyFileKeepsGivenName(path: string)
    ensures NormalizedName(path, Some("/a//b"), true) == "a/b"
    ensures NormalizedName(path, Some("/a//b"), false) == "/a//b"
  {
    assert StripLeadingSlash("/a//b") == "a//b";
    assert CollapseSlashes("a//b") == "a" + CollapseSlashes("//b");
    assert CollapseSlashes("//b") == "/" + CollapseSlashes("b");
  }

  /**
   A leading slash survives normalisation of a mapped file's name exactly when
   the given name began with two slashes: the strip runs before the collapse.
   */
  lemma LeadingSlashSurvives(path: string, n: string)
    requires |n| >= 2
    ensures NormalizedName(path, Some(n), true)[0] == '/' <==> n[0] == '/' && n[1] == '/'
  {
    var stripped := StripLeadingSlash(n);
    CollapseKeepsContent(stripped);
  }
}
