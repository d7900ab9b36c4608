/** The `System.IO.Path` operations the server uses, as they behave on a Unix file
    system, where `/` is the only directory separator. */
module Paths {
  import opened Text

  const Separator: char := '/'

  /** The position of the last `c` in `s`, if any. */
  function LastIndexOf(s: string, c: char): (r: Option<nat>)
    ensures r.Some? ==> r.value < |s| && s[r.value] == c
    ensures r.Some? ==> forall j :: r.value < j < |s| ==> s[j] != c
    ensures r.None? <==> c !in s
    decreases |s|
  {
    if |s| == 0 then None
    else if s[|s| - 1] == c then Some(|s| - 1)
    else
      assert s == s[..|s| - 1] + [s[|s| - 1]];
      LastIndexOf(s[..|s| - 1], c)
  }

  /** Text that does not contain `c` leaves its last position unchanged. */
  lemma {:induction false} LastIndexOfAppendWithout(b: string, e: string, c: char)
    requires c !in e
    ensures LastIndexOf(b + e, c) == LastIndexOf(b, c)
    decreases |e|
  {
    if |e| > 0 {
      var s := b + e;
      assert s[|s| - 1] == e[|e| - 1];
      assert s[..|s| - 1] == b + e[..|e| - 1];
      LastIndexOfAppendWithout(b, e[..|e| - 1], c);
    } else {
      assert b + e == b;
    }
  }

  /** A suffix whose only `c` is its first character puts the last `c` right there. */
  lemma {:induction false} LastIndexOfAppendLeading(b: string, e: string, c: char)
    requires |e| >= 1 && e[0] == c && c !in e[1..]
    ensures LastIndexOf(b + e, c) == Some(|b|)
  {
    var bc := b + [c];
    assert b + e == bc + e[1..];
    LastIndexOfAppendWithout(bc, e[1..], c);
    assert bc[|bc| - 1] == c;
    assert LastIndexOf(bc, c) == Some(|b|);
  }

  /** Where the last path segment (the file name) begins. */
  function FileNameStart(p: string): (r: nat)
    ensures r <= |p|
    ensures Separator !in p[r..]
    ensures r > 0 ==> p[r - 1] == Separator
  {
    match LastIndexOf(p, Separator)
    case None => 0
    case Some(i) => i + 1
  }

  /** The position of the dot that starts the extension: the last `.` of the file name. */
  function ExtensionDot(p: string): (r: Option<nat>)
    ensures r.Some? ==> FileNameStart(p) <= r.value < |p| && p[r.value] == '.'
    ensures r.Some? ==> forall j :: r.value < j < |p| ==> p[j] != '.' && p[j] != Separator
    ensures r.None? ==> '.' !in p[FileNameStart(p)..]
  {
    var start := FileNameStart(p);
    match LastIndexOf(p[start..], '.')
    case None => None
    case Some(j) =>
      assert forall k :: start + j < k < |p| ==> p[k] == p[start..][k - start];
      Some(start + j)
  }

  /** `Path.GetExtension(p)`: from the last dot of the file name to the end, or
      empty when the file name has no dot or ends with one. */
  function GetExtension(p: string): (r: string)
    ensures r == "" || (|r| >= 2 && r[0] == '.' && '.' !in r[1..] && Separator !in r)
    ensures r != "" ==> |r| <= |p| && r == p[|p| - |r|..]
  {
    match ExtensionDot(p)
    case Some(i) =>
      if i < |p| - 1 then
        assert forall k :: 0 <= k < |p| - i ==> p[i..][k] == p[i + k];
        p[i..]
      else ""
    case None => ""
  }

  /** Exactly when `GetExtension` finds an extension, and where it starts. */
  lemma GetExtensionAtDot(p: string)
    ensures GetExtension(p) != "" <==> ExtensionDot(p).Some? && ExtensionDot(p).value < |p| - 1
    ensures GetExtension(p) != "" ==> GetExtension(p) == p[ExtensionDot(p).value..]
  {
  }

  /** `Path.ChangeExtension(p, e)` for an extension `e` that starts with a dot:
      the empty path stays empty; otherwise the old extension (the file name's last
      dot onwards) is replaced by `e`, or `e` is appended when the file name has no dot. */
  function ChangeExtension(p: string, e: string): (r: string)
    requires |e| >= 1 && e[0] == '.'
    ensures p == "" ==> r == ""
    ensures p != "" ==> |r| >= |e| && r[|r| - |e|..] == e
  {
    if p == "" then ""
    else
      match ExtensionDot(p)
      case Some(i) => p[..i] + e
      case None => p + e
  }

  /** The dot an extension brings with it becomes the extension dot of the new path. */
  lemma ExtensionDotOfAppended(b: string, e: string)
    requires |e| >= 2 && e[0] == '.' && '.' !in e[1..] && Separator !in e
    ensures ExtensionDot(b + e) == Some(|b|)
  {
    var q := b + e;
    LastIndexOfAppendWithout(b, e, Separator);
    var start := FileNameStart(q);
    assert start == FileNameStart(b);
    assert q[start..] == b[start..] + e;
    LastIndexOfAppendLeading(b[start..], e, '.');
  }

  /** The part of a path before its extension dot, which ChangeExtension keeps. */
  function Stem(p: string): (r: string)
    ensures |r| <= |p| && r == p[..|r|]
    ensures |r| < |p| ==> p[|r|] == '.' && Separator !in p[|r|..]
    ensures ExtensionDot(p).Some? ==> |r| == ExtensionDot(p).value
    ensures ExtensionDot(p).None? ==> r == p
  {
    match ExtensionDot(p)
    case Some(i) => p[..i]
    case None => p
  }

  /** Appending a well-formed extension makes it the path's extension. */
  lemma GetExtensionOfAppended(b: string, e: string)
    requires |e| >= 2 && e[0] == '.' && '.' !in e[1..] && Separator !in e
    ensures GetExtension(b + e) == e
  {
    ExtensionDotOfAppended(b, e);
    assert (b + e)[|b|..] == e;
  }

  /** A path is its stem followed by its extension, whenever it has one. */
  lemma StemAndExtension(p: string)
    requires GetExtension(p) != ""
    ensures Stem(p) + GetExtension(p) == p
  {
  }

  /** Changing the extension of a non-empty path and then asking for it gives the new
      extension back, and a second change acts as if the first had not happened. */
  lemma {:induction false} ChangeExtensionProperties(p: string, e: string, f: string)
    requires |e| >= 2 && e[0] == '.' && '.' !in e[1..] && Separator !in e
    requires |f| >= 1 && f[0] == '.'
    ensures p != "" ==> ChangeExtension(p, e) == Stem(p) + e
    ensures Stem(ChangeExtension(p, e)) == Stem(p)
    ensures p != "" ==> GetExtension(ChangeExtension(p, e)) == e
    ensures ChangeExtension(ChangeExtension(p, e), f) == ChangeExtension(p, f)
  {
    if p == "" { return; }
    var q := ChangeExtension(p, e);
    assert q == Stem(p) + e;
    ExtensionDotOfAppended(Stem(p), e);
    assert q[..|Stem(p)|] == Stem(p);
    assert q[|Stem(p)|..] == e;
  }

  /** `Path.Combine(root, file)`: `file` alone when `root` is empty or `file` is
      rooted, `root` alone when `file` is empty, otherwise the two joined by exactly
      the separator `root` may already end with. */
  function Combine(root: string, file: string): (r: string)
    ensures file != "" ==> |r| >= |file| && r[|r| - |file|..] == file
    ensures file == "" ==> r == root
    ensures root != "" && file != "" && file[0] != Separator ==>
              |r| > |root| && |r| > |file| && r[..|root|] == root && r[|r| - |file| - 1] == Separator
  {
    if file == "" then root
    else if root == "" then file
    else if file[0] == Separator then file
    else if root[|root| - 1] == Separator then root + file
    else root + [Separator] + file
  }

  /** Exactly where `Combine` puts the separator. */
  lemma CombineJoins(root: string, file: string)
    requires file != ""
    ensures root == "" || file[0] == Separator ==> Combine(root, file) == file
    ensures root != "" && file[0] != Separator && root[|root| - 1] == Separator ==>
              Combine(root, file) == root + file
    ensures root != "" && file[0] != Separator && root[|root| - 1] != Separator ==>
              Combine(root, file) == root + [Separator] + file
  {
  }

  /** Moves `end` down over separators, but never below `root`. */
  function DropTrailingSeparators(p: string, end: nat, root: nat): (r: nat)
    requires root <= end <= |p|
    ensures root <= r <= end
    ensures r > root ==> p[r - 1] != Separator
    ensures forall k :: r <= k < end ==> p[k] == Separator
    decreases end
  {
    if end > root && p[end - 1] == Separator then DropTrailingSeparators(p, end - 1, root) else end
  }

  /** `Path.GetDirectoryName(p)`: `None` (null) for the empty path and the root; otherwise
      everything before the last separator, with the separators before it dropped
      down to the root, or `""` when the path holds no separator after the root. */
  function GetDirectoryName(p: string): (r: Option<string>)
    ensures r.Some? ==> |r.value| < |p| && r.value == p[..|r.value|]
    ensures r.None? <==> p == "" || p == [Separator]
  {
    var root := if |p| > 0 && p[0] == Separator then 1 else 0;
    if |p| <= root then None
    else
      var end :=
        match LastIndexOf(p, Separator)
        case Some(i) => if i >= root then i else root
        case None => root;
      Some(p[..DropTrailingSeparators(p, end, root)])
  }
}
