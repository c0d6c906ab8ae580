/**
 * The first step of extended grapheme cluster segmentation (Unicode Standard
 * Annex #29), which the plugin takes from the `unicode_segmentation` crate:
 * split a string into its first user-perceived character and the rest.
 *
 * The rules below are a subset of the annex, enough for the status glyphs the
 * plugin deals with: CR LF is one cluster and any other control character is
 * a cluster of its own (rules GB3-GB5); a pair of regional indicators forms
 * one flag (GB12/GB13); combining marks, variation selectors and emoji
 * skin-tone modifiers extend the preceding character (GB9); and a zero width
 * joiner glues a following pictograph onto a cluster that started with a
 * pictograph and has only extenders since (GB11).
 */
module Graphemes {
  import opened Wrappers

  const ZWJ: char := '\U{200D}'

  /** The annex's Control class, restricted to C0, DEL, C1 and the line and paragraph separators. */
  predicate IsControl(c: char) {
    || c < ' '
    || '\U{7F}' <= c <= '\U{9F}'
    || c == '\U{2028}' || c == '\U{2029}'
  }

  predicate IsRegionalIndicator(c: char) {
    '\U{1F1E6}' <= c <= '\U{1F1FF}'
  }

  /** Characters that never start a cluster of their own. */
  predicate IsExtend(c: char) {
    || '\U{300}' <= c <= '\U{36F}'     // combining diacritical marks
    || '\U{20D0}' <= c <= '\U{20FF}'   // combining marks for symbols (keycaps)
    || '\U{FE00}' <= c <= '\U{FE0F}'   // variation selectors
    || '\U{1F3FB}' <= c <= '\U{1F3FF}' // emoji skin-tone modifiers
  }

  /** Extended pictographs: the symbol and emoji blocks, without the skin-tone modifiers. */
  predicate IsPictographic(c: char) {
    || '\U{2600}' <= c <= '\U{27BF}'
    || '\U{1F300}' <= c <= '\U{1F3FA}'
    || '\U{1F400}' <= c <= '\U{1FAFF}'
  }

  /**
   * How many leading characters of `t` still belong to the cluster before it;
   * `afterPictograph` says the cluster so far is a pictograph followed only by
   * extenders, the one case in which a joiner glues the next pictograph on.
   */
  function ExtensionLength(t: string, afterPictograph: bool): (n: nat)
    ensures n <= |t|
  {
    if |t| == 0 then 0
    else if IsExtend(t[0]) then 1 + ExtensionLength(t[1..], afterPictograph)
    else if t[0] == ZWJ then
      if afterPictograph && |t| >= 2 && IsPictographic(t[1]) then 2 + ExtensionLength(t[2..], true)
      else 1 + ExtensionLength(t[1..], false)
    else 0
  }

  /** Length of the cluster that starts at `s[0]`. */
  function ClusterLength(s: string): (n: nat)
    requires |s| > 0
    ensures 1 <= n <= |s|
  {
    if IsControl(s[0]) then
      if |s| >= 2 && s[0] == '\r' && s[1] == '\n' then 2 else 1
    else
      var head := if |s| >= 2 && IsRegionalIndicator(s[0]) && IsRegionalIndicator(s[1]) then 2 else 1;
      head + ExtensionLength(s[head..], IsPictographic(s[0]))
  }

  /**
   * The first grapheme cluster of `s` (what `s.graphemes(true).next()` yields):
   * nothing for the empty string, otherwise a non-empty prefix of `s`.
   */
  function FirstCluster(s: string): (r: Option<string>)
    ensures r.None? <==> s == []
    ensures r.Some? ==> 0 < |r.value| <= |s| && r.value == s[..|r.value|]
  {
    if s == [] then None else Some(s[..ClusterLength(s)])
  }

  /** `g` is exactly one user-perceived character. */
  predicate IsCluster(g: string) {
    FirstCluster(g) == Some(g)
  }

  lemma {:induction false} ExtensionOfPrefix(t: string, pict: bool)
    ensures ExtensionLength(t[..ExtensionLength(t, pict)], pict) == ExtensionLength(t, pict)
    decreases |t|
  {
    var n := ExtensionLength(t, pict);
    var p := t[..n];
    if |t| == 0 {
    } else if IsExtend(t[0]) {
      assert p[1..] == t[1..][..ExtensionLength(t[1..], pict)];
      ExtensionOfPrefix(t[1..], pict);
    } else if t[0] == ZWJ {
      if pict && |t| >= 2 && IsPictographic(t[1]) {
        assert p[2..] == t[2..][..ExtensionLength(t[2..], true)];
        ExtensionOfPrefix(t[2..], true);
      } else {
        assert p[1..] == t[1..][..ExtensionLength(t[1..], false)];
        ExtensionOfPrefix(t[1..], false);
        if |p| >= 2 {
          assert p[1] == t[1];
        }
      }
    }
  }

  /** The first cluster of a string is itself a single cluster. */
  lemma FirstClusterIsCluster(s: string)
    requires s != []
    ensures IsCluster(FirstCluster(s).value)
  {
    var n := ClusterLength(s);
    var g := s[..n];
    if IsControl(s[0]) {
      assert ClusterLength(g) == |g|;
    } else {
      var head := if |s| >= 2 && IsRegionalIndicator(s[0]) && IsRegionalIndicator(s[1]) then 2 else 1;
      var head' := if |g| >= 2 && IsRegionalIndicator(g[0]) && IsRegionalIndicator(g[1]) then 2 else 1;
      assert head' == head;
      assert g[head..] == s[head..][..ExtensionLength(s[head..], IsPictographic(s[0]))];
      ExtensionOfPrefix(s[head..], IsPictographic(s[0]));
      assert ClusterLength(g) == |g|;
    }
    assert g[..|g|] == g;
  }

  /** Every single character is one cluster. */
  lemma SingleCharacter(c: char)
    ensures IsCluster([c])
  {
    assert ClusterLength([c]) == 1 by {
      assert [c][1..] == [];
    }
    assert [c][..1] == [c];
  }

  /** Two regional indicators form one cluster: a flag such as U+1F1FA U+1F1F8. */
  lemma Flag(a: char, b: char)
    requires IsRegionalIndicator(a) && IsRegionalIndicator(b)
    ensures IsCluster([a, b])
  {
    assert ClusterLength([a, b]) == 2 by {
      assert [a, b][2..] == [];
    }
    assert [a, b][..2] == [a, b];
  }

  lemma {:induction false} ExtensionStopsAtSpace(t: string, u: string, pict: bool)
    requires ExtensionLength(t, pict) == |t|
    requires |u| > 0 && u[0] == ' '
    ensures ExtensionLength(t + u, pict) == |t|
    decreases |t|
  {
    if |t| == 0 {
      assert t + u == u;
    } else if IsExtend(t[0]) {
      assert (t + u)[1..] == t[1..] + u;
      ExtensionStopsAtSpace(t[1..], u, pict);
    } else if t[0] == ZWJ {
      if pict && |t| >= 2 && IsPictographic(t[1]) {
        assert (t + u)[2..] == t[2..] + u;
        ExtensionStopsAtSpace(t[2..], u, true);
      } else if |t| == 1 {
        assert (t + u)[1] == ' ';
        assert (t + u)[1..] == u;
      } else {
        assert (t + u)[1..] == t[1..] + u;
        ExtensionStopsAtSpace(t[1..], u, false);
      }
    }
  }

  /**
   * A cluster boundary always falls before a space: a single cluster followed
   * by a space and anything else is still the first cluster.
   */
  lemma ClusterEndsBeforeSpace(g: string, rest: string)
    requires IsCluster(g)
    requires |rest| > 0 && rest[0] == ' '
    ensures FirstCluster(g + rest) == Some(g)
  {
    var s := g + rest;
    assert ClusterLength(g) == |g|;
    assert s[0] == g[0];
    if IsControl(g[0]) {
      if |g| == 1 { assert s[1] == ' '; }
      else { assert s[1] == g[1]; }
    } else {
      var head := if |g| >= 2 && IsRegionalIndicator(g[0]) && IsRegionalIndicator(g[1]) then 2 else 1;
      var head' := if |s| >= 2 && IsRegionalIndicator(s[0]) && IsRegionalIndicator(s[1]) then 2 else 1;
      assert head' == head by {
        if |g| == 1 { assert s[1] == ' '; }
      }
      assert s[head..] == g[head..] + rest;
      ExtensionStopsAtSpace(g[head..], rest, IsPictographic(g[0]));
    }
    assert s[..|g|] == g;
  }
}
