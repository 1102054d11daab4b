// Path strings of main.c: strip_dot_slash and the parent + "/" + name join
// that walk builds in its newpath buffer.

module Paths {

  /** The string begins with the two characters "./". */
  predicate StartsWithDotSlash(s: string)
  {
    |s| >= 2 && s[0] == '.' && s[1] == '/'
  }

  /**
   * strip_dot_slash: drops a leading "./" but only from a string longer than
   * two characters, so "./" itself comes back unchanged.
   */
  function StripDotSlash(s: string): (r: string)
    ensures |r| == |s| || |r| == |s| - 2
    ensures |r| < |s| <==> |s| > 2 && StartsWithDotSlash(s)
    ensures |r| < |s| ==> r == s[2..]
    ensures |r| == |s| ==> r == s
    ensures |s| > 0 ==> |r| > 0
  {
    if |s| > 2 && s[0] == '.' && s[1] == '/' then s[2..] else s
  }

  /**
   * The path walk hands on for entry `name` of directory `parent`: the two
   * joined by one '/', then stripped of a leading "./". Children of "." thus
   * carry their bare name, and no other parent is rewritten.
   */
  function ChildPath(parent: string, name: string): (r: string)
    ensures parent == "." && |name| > 0 ==> r == name
    ensures parent == "." && name == "" ==> r == "./"
    ensures parent != "." && !StartsWithDotSlash(parent) ==> r == parent + "/" + name
    ensures |r| > 0
  {
    StripDotSlash(parent + "/" + name)
  }
}
