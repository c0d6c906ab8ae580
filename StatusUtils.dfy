/**
 * The status/base-name codec of a tab name. A tab name carries a status when
 * its first grapheme cluster (any cluster: an emoji, a flag, a letter, a
 * punctuation mark) is followed by a space; the status is that cluster and
 * the base name is everything after that one space. Without a status the
 * whole name is the base name.
 */
module StatusUtils {
  import opened Wrappers
  import opened Graphemes

  /**
   * The first cluster of `name` is followed by a space: the name starts with
   * one cluster and a space (RoundTrip gives the converse).
   */
  predicate HasStatus(name: string)
    ensures HasStatus(name) ==> exists i | 0 < i < |name| :: IsCluster(name[..i]) && name[i] == ' '
  {
    match FirstCluster(name)
    case None => false
    case Some(g) =>
      FirstClusterIsCluster(name);
      assert IsCluster(name[..|g|]);
      |g| < |name| && name[|g|] == ' '
  }

  /** `extract_base_name`: the text after "cluster + space", or the whole name. */
  function ExtractBaseName(name: string): (base: string)
    ensures |base| <= |name| && base == name[|name| - |base|..]
    ensures HasStatus(name) ==> |base| < |name| && name[|name| - |base| - 1] == ' '
    ensures !HasStatus(name) ==> base == name
  {
    match FirstCluster(name)
    case None => name
    case Some(g) => if |g| < |name| && name[|g|] == ' ' then name[|g| + 1..] else name
  }

  /** `extract_status`: the first cluster when a space follows it, else "". */
  function ExtractStatus(name: string): (status: string)
    ensures |status| <= |name| && status == name[..|status|]
    ensures status != [] <==> HasStatus(name)
    ensures status != [] ==> IsCluster(status)
  {
    match FirstCluster(name)
    case None => []
    case Some(g) =>
      if |g| < |name| && name[|g|] == ' ' then
        FirstClusterIsCluster(name);
        g
      else []
  }

  /**
   * A name splits back into its parts: with a status, the name is the status,
   * one space and the base name; without one, the base name is the name.
   */
  lemma Reconstruction(name: string)
    ensures ExtractStatus(name) != [] ==>
              name == ExtractStatus(name) + " " + ExtractBaseName(name)
    ensures ExtractStatus(name) == [] ==> ExtractBaseName(name) == name
  {
    if HasStatus(name) {
      var g := FirstCluster(name).value;
      assert name == g + [name[|g|]] + name[|g| + 1..];
    }
  }

  /** Composing "cluster + space + base" and splitting it again gives back both parts. */
  lemma RoundTrip(g: string, b: string)
    requires IsCluster(g)
    ensures ExtractStatus(g + " " + b) == g
    ensures ExtractBaseName(g + " " + b) == b
  {
    var name := g + " " + b;
    assert name == g + (" " + b);
    ClusterEndsBeforeSpace(g, " " + b);
    assert name[|g| + 1..] == b;
  }

  /** The empty name has neither a status nor a base name. */
  lemma EmptyName()
    ensures ExtractBaseName("") == "" && ExtractStatus("") == ""
  {
  }

  /** A lone cluster, with nothing after it, is a base name and not a status. */
  lemma LoneClusterIsBaseName(g: string)
    requires IsCluster(g)
    ensures ExtractStatus(g) == "" && ExtractBaseName(g) == g
  {
  }

  /** Only one status layer is stripped: "! ! Tab" has base name "! Tab". */
  lemma StripsOneLayer(g: string, b: string)
    requires IsCluster(g)
    ensures ExtractBaseName(g + " " + g + " " + b) == g + " " + b
    ensures ExtractStatus(g + " " + g + " " + b) == g
  {
    assert g + " " + g + " " + b == g + " " + (g + " " + b);
    RoundTrip(g, g + " " + b);
  }

  // The examples the source documents and tests, on concrete names.

  /** An emoji status in front of "Working". */
  lemma RobotExample()
    ensures ExtractStatus("\U{1F916} Working") == "\U{1F916}"
    ensures ExtractBaseName("\U{1F916} Working") == "Working"
  {
    SingleCharacter('\U{1F916}');
    RoundTrip("\U{1F916}", "Working");
  }

  /** A flag is one status, two code points long. */
  lemma FlagExample()
    ensures ExtractStatus("\U{1F1FA}\U{1F1F8} USA") == "\U{1F1FA}\U{1F1F8}"
    ensures ExtractBaseName("\U{1F1FA}\U{1F1F8} USA") == "USA"
  {
    Flag('\U{1F1FA}', '\U{1F1F8}');
    RoundTrip("\U{1F1FA}\U{1F1F8}", "USA");
  }

  /** Any single cluster counts as a status, a letter included. */
  lemma LetterExample()
    ensures ExtractStatus("A Tab") == "A" && ExtractBaseName("A Tab") == "Tab"
  {
    SingleCharacter('A');
    RoundTrip("A", "Tab");
  }

  /** A name whose first cluster is not followed by a space has no status. */
  lemma NoSpaceExamples()
    ensures ExtractStatus("Working") == "" && ExtractBaseName("Working") == "Working"
    ensures ExtractStatus("!Alert") == "" && ExtractBaseName("!Alert") == "!Alert"
  {
    assert ExtensionLength("Working"[1..], false) == 0;
    assert ClusterLength("Working") == 1;
    assert "Working"[..1] == "W";
    assert FirstCluster("Working") == Some("W");
    assert ExtensionLength("!Alert"[1..], false) == 0;
    assert ClusterLength("!Alert") == 1;
    assert "!Alert"[..1] == "!";
    assert FirstCluster("!Alert") == Some("!");
  }

  /** A repeated status loses one layer; a lone letter is a base name. */
  lemma RepeatedAndLoneExamples()
    ensures ExtractBaseName("! ! Tab") == "! Tab"
    ensures ExtractBaseName("X") == "X"
  {
    SingleCharacter('!');
    StripsOneLayer("!", "Tab");
    assert "!" + " " + "!" + " " + "Tab" == "! ! Tab";
    assert "!" + " " + "Tab" == "! Tab";
    SingleCharacter('X');
    LoneClusterIsBaseName("X");
  }

  /** A joiner sequence such as "man technologist" is one status. */
  lemma JoinerSequenceExample()
    ensures ExtractStatus("\U{1F468}\U{200D}\U{1F4BB} Code") == "\U{1F468}\U{200D}\U{1F4BB}"
    ensures ExtractBaseName("\U{1F468}\U{200D}\U{1F4BB} Code") == "Code"
  {
    ManTechnologist();
    RoundTrip("\U{1F468}\U{200D}\U{1F4BB}", "Code");
    assert "\U{1F468}\U{200D}\U{1F4BB}" + " " + "Code" == "\U{1F468}\U{200D}\U{1F4BB} Code";
  }

  lemma ManTechnologist()
    ensures IsCluster("\U{1F468}\U{200D}\U{1F4BB}")
  {
    var g := "\U{1F468}\U{200D}\U{1F4BB}";
    var t := g[1..];
    assert t == [ZWJ, '\U{1F4BB}'];
    assert t[2..] == [];
    assert ExtensionLength(t, true) == 2;
    assert ClusterLength(g) == 3;
    assert g[..3] == g;
  }

  /**
   * A joiner after a letter, or a combining mark after a control character,
   * starts no status: the cluster ends before the character that follows.
   */
  lemma NoJoinAfterLetterOrControl()
    ensures ExtractStatus("a\U{200D}\U{1F916} x") == ""
    ensures ExtractStatus("\n\U{301} x") == ""
  {
    var s := "a\U{200D}\U{1F916} x";
    assert ExtensionLength(s[1..][1..], false) == 0;
    assert ExtensionLength(s[1..], false) == 1;
    assert FirstCluster(s) == Some(s[..2]);
    var t := "\n\U{301} x";
    assert FirstCluster(t) == Some(t[..1]);
  }
}
