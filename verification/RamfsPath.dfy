/** Path text (src/fs/ramfs.c): splitting a path at its slashes and joining it again. */
module RamfsPath {
  import opened Common

  const VFS_NAME_MAX: nat := 63
  const VFS_PATH_MAX: nat := 256

  /** The number of characters before the first slash. */
  function Head(s: string): (k: nat)
    ensures k <= |s| && (forall i :: 0 <= i < k ==> s[i] != '/') && (k < |s| ==> s[k] == '/')
  {
    if s == [] || s[0] == '/' then 0 else 1 + Head(s[1..])
  }

  function Split(s: string): (cs: seq<string>)
    ensures |cs| > 0
  {
    var k := Head(s);
    if k == |s| then [s] else [s[..k]] + Split(s[k + 1..])
  }

  predicate GoodName(c: string) {
    0 < |c| <= VFS_NAME_MAX && '/' !in c
  }

  /** The components of an absolute path, None when it is malformed. */
  function Parse(path: string): Option<seq<string>> {
    if path == [] || path[0] != '/' then None
    else if path == "/" then Some([])
    else
      var cs := Split(path[1..]);
      if forall i :: 0 <= i < |cs| ==> GoodName(cs[i]) then Some(cs) else None
  }

  function Join(cs: seq<string>): string {
    if cs == [] then "" else Join(cs[..|cs| - 1]) + "/" + cs[|cs| - 1]
  }

  function PathText(cs: seq<string>): string {
    if cs == [] then "/" else Join(cs)
  }

  lemma {:induction false} HeadOf(c: string, s: string)
    requires '/' !in c && (s == [] || s[0] == '/')
    ensures Head(c + s) == |c|
  {
    if c != [] {
      assert (c + s)[1..] == c[1..] + s;
      HeadOf(c[1..], s);
    } else {
      assert c + s == s;
    }
  }

  /** Joining from the front is joining from the back. */
  lemma {:induction false} JoinFront(cs: seq<string>)
    requires |cs| > 0
    ensures Join(cs) == "/" + cs[0] + Join(cs[1..])
  {
    if |cs| == 1 {
      assert cs[..0] == [] && cs[1..] == [];
    } else {
      var ini := cs[..|cs| - 1];
      JoinFront(ini);
      assert cs[1..][..|cs[1..]| - 1] == ini[1..];
      assert cs[1..][|cs[1..]| - 1] == cs[|cs| - 1];
    }
  }

  lemma SplitStep(c: string, t: string)
    requires '/' !in c
    ensures Split(c) == [c] && Split(c + "/" + t) == [c] + Split(t)
  {
    HeadOf(c, []);
    assert c + [] == c;
    var s := c + ("/" + t);
    HeadOf(c, "/" + t);
    assert c + "/" + t == s && s[..|c|] == c && s[|c| + 1..] == t;
  }

  lemma {:induction false} SplitJoin(cs: seq<string>)
    requires |cs| > 0 && forall i :: 0 <= i < |cs| ==> '/' !in cs[i]
    ensures Join(cs) != [] && Join(cs)[0] == '/' && Split(Join(cs)[1..]) == cs
  {
    hide Split;
    JoinFront(cs);
    var c, rest := cs[0], cs[1..];
    assert cs == [c] + rest;
    if rest == [] {
      assert Join(cs)[1..] == c;
      SplitStep(c, []);
    } else {
      SplitJoin(rest);
      var t := Join(rest)[1..];
      assert Join(rest) == "/" + t;
      hide Join;
      assert Join(cs)[1..] == c + "/" + t;
      SplitStep(c, t);
    }
  }

  lemma {:induction false} JoinSplit(s: string)
    ensures Join(Split(s)) == "/" + s
    ensures forall i :: 0 <= i < |Split(s)| ==> '/' !in Split(s)[i]
    decreases |s|
  {
    var k := Head(s);
    if k == |s| {
      JoinOne(s);
    } else {
      var c, t := s[..k], s[k + 1..];
      assert '/' !in c;
      var cs := Split(s);
      assert cs == [c] + Split(t);
      JoinSplit(t);
      JoinFront(cs);
      assert cs[1..] == Split(t);
      hide Split, Join, Head;
      Reassemble(s, k);
    }
  }

  lemma Reassemble(s: string, k: nat)
    requires k < |s| && s[k] == '/'
    ensures "/" + s[..k] + ("/" + s[k + 1..]) == "/" + s
  {
    assert s == s[..k] + ("/" + s[k + 1..]);
  }

  lemma JoinOne(c: string)
    ensures Join([c]) == "/" + c
  {
    assert [c][..0] == [];
  }

  /** Parsing and joining are inverse: a path parses to cs exactly when it is the text of cs. */
  lemma ParseText(path: string, cs: seq<string>)
    ensures Parse(path) == Some(cs) <==>
              path == PathText(cs) && forall i :: 0 <= i < |cs| ==> 0 < |cs[i]| <= 63 && '/' !in cs[i]
  {
    hide Split, Join;
    if Parse(path) == Some(cs) && cs != [] {
      JoinSplit(path[1..]);
      assert path == "/" + path[1..];
    }
    if path == PathText(cs) && (forall i :: 0 <= i < |cs| ==> GoodName(cs[i])) && cs != [] {
      SplitJoin(cs);
      NotRoot(cs);
    }
    if cs == [] && Parse(path) == Some(cs) && path != "/" {
      assert false;
    }
  }

  /** The text of a non-empty list of good names is longer than a single slash. */
  lemma NotRoot(cs: seq<string>)
    requires |cs| > 0 && forall i :: 0 <= i < |cs| ==> GoodName(cs[i])
    ensures |Join(cs)| > 1
  {
    JoinFront(cs);
    assert GoodName(cs[0]);
  }
}
