/** Node's `path.extname` and `path.basename(p, suffix)` on POSIX, for a single directory
    entry name (the strings `fs.readdirSync` returns, which hold no '/'). */
module NodePath {
  import opened Common
  import opened JsText

  /** Position of the last `c` in `s`, if any. */
  function LastIndexOf(s: string, c: char): (r: Option<nat>)
    ensures r.None? ==> c !in s
    ensures r.Some? ==> r.value < |s| && s[r.value] == c && c !in s[r.value + 1..]
  {
    if |s| == 0 then None
    else if s[|s| - 1] == c then Some(|s| - 1)
    else
      var r := LastIndexOf(s[..|s| - 1], c);
      assert s == s[..|s| - 1] + [s[|s| - 1]];
      if r.Some? then
        assert s[r.value + 1..] == s[..|s| - 1][r.value + 1..] + [s[|s| - 1]];
        r
      else r
  }

  /** Node's extension of a name: from the last '.' to the end, or "" when there is no dot,
      when the last dot opens the name (a dot-file such as ".png"), or for "..". */
  function ExtName(name: string): string
  {
    match LastIndexOf(name, '.')
    case None => ""
    case Some(p) => if p == 0 || name == ".." then "" else name[p..]
  }

  /** An extension is a final segment of the name that starts with its only dot; every name
      holding a dot past its first character, other than "..", has one. */
  lemma ExtNameSpec(name: string)
    ensures var ext := ExtName(name);
            ext == "" || (ext[0] == '.' && '.' !in ext[1..] && EndsWith(name, ext) && |ext| < |name|)
    ensures |name| > 0 && '.' in name[1..] && name != ".." ==> ExtName(name) != ""
  {
    var r := LastIndexOf(name, '.');
    if r.Some? {
      var p := r.value;
      assert name[p..][1..] == name[p + 1..];
      if |name| > 0 && '.' in name[1..] {
        var k :| 0 <= k < |name[1..]| && name[1..][k] == '.';
        assert name[k + 1] == '.';
        assert p >= k + 1;
      }
    }
  }

  /** Node's base name of `name` given a suffix to drop: `name` without `suffix` when it
      ends with it, "" when the two are equal, `name` unchanged otherwise. */
  function BaseName(name: string, suffix: string): string
  {
    if 0 < |suffix| <= |name| then
      if suffix == name then ""
      else if EndsWith(name, suffix) then name[..|name| - |suffix|]
      else name
    else name
  }

  /** A suffix the name ends with is cut off (leaving "" when it is the whole name); any
      other suffix, or an empty one, leaves the name unchanged. */
  lemma BaseNameSpec(name: string, suffix: string)
    ensures 0 < |suffix| < |name| && EndsWith(name, suffix) ==> BaseName(name, suffix) + suffix == name
    ensures 0 < |suffix| && suffix == name ==> BaseName(name, suffix) == ""
    ensures !EndsWith(name, suffix) || suffix == "" ==> BaseName(name, suffix) == name
  {
    if 0 < |suffix| <= |name| && suffix != name && EndsWith(name, suffix) {
      assert name[..|name| - |suffix|] + name[|name| - |suffix|..] == name;
    }
  }
}
