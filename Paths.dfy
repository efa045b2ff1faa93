/**
 `is_hidden` in src/ldup.py: a path is hidden when one of its
 `/`-separated components starts with a dot. Components are those of
 Python's `str.split("/")`: empty ones arise from leading, trailing or
 repeated slashes, and never count as hidden.
 */
module Paths {

  /**
   The components of `p` between slashes, as `p.split("/")` returns them,
   empty ones included; never none, as `"".split("/")` is `[""]`.
   */
  function Split(p: string): (parts: seq<string>)
    ensures |parts| >= 1
  {
    if p == [] then [""]
    else if p[0] == '/' then [""] + Split(p[1..])
    else
      var rest := Split(p[1..]);
      [[p[0]] + rest[0]] + rest[1..]
  }

  /** A path has one component more than it has slashes. */
  lemma {:induction false} SplitCount(p: string)
    ensures |Split(p)| == multiset(p)['/'] + 1
  {
    if p != [] {
      SplitCount(p[1..]);
      assert p == [p[0]] + p[1..];
    }
  }

  /** The components joined back with slashes, as `"/".join(parts)`. */
  function Join(parts: seq<string>): string
    requires |parts| >= 1
  {
    if |parts| == 1 then parts[0] else parts[0] + "/" + Join(parts[1..])
  }

  /** Splitting loses nothing: joining the components gives the path back, and none holds a slash. */
  lemma SplitJoin(p: string)
    ensures Join(Split(p)) == p
    ensures forall i :: 0 <= i < |Split(p)| ==> '/' !in Split(p)[i]
  {
    JoinSplit(p);
    SplitNoSlash(p);
  }

  /** Joining the components of a path gives the path back. */
  lemma {:induction false} JoinSplit(p: string)
    ensures Join(Split(p)) == p
  {
    if p != [] {
      JoinSplit(p[1..]);
      var rest := Split(p[1..]);
      if p[0] == '/' {
        assert Split(p)[1..] == rest;
        assert p == [p[0]] + p[1..];
      } else {
        var parts := Split(p);
        assert parts[1..] == rest[1..];
        if |rest| == 1 {
          assert p == [p[0]] + rest[0];
        } else {
          assert Join(rest) == rest[0] + "/" + Join(rest[1..]);
          assert Join(parts) == ([p[0]] + rest[0]) + "/" + Join(rest[1..]);
          assert p == [p[0]] + p[1..];
        }
      }
    }
  }

  /** No component of a path holds a slash. */
  lemma {:induction false} SplitNoSlash(p: string)
    ensures forall i :: 0 <= i < |Split(p)| ==> '/' !in Split(p)[i]
  {
    if p != [] && p[0] != '/' {
      SplitNoSlash(p[1..]);
      var rest, parts := Split(p[1..]), Split(p);
      forall i | 0 <= i < |parts| ensures '/' !in parts[i] {
        if i == 0 {
          assert parts[0] == [p[0]] + rest[0];
        } else {
          assert parts[i] == rest[i];
        }
      }
    } else if p != [] {
      SplitNoSlash(p[1..]);
      assert Split(p) == [""] + Split(p[1..]);
    }
  }

  predicate StartsWithDot(part: string)
  {
    |part| > 0 && part[0] == '.'
  }

  /**
   Some component of the path starts with a dot; equivalently, a dot begins
   the path or directly follows one of its slashes.
   */
  predicate IsHidden(p: string): (hidden: bool)
    ensures hidden <==> DotStartsComponent(p)
  {
    HiddenIff(p);
    exists i :: 0 <= i < |Split(p)| && StartsWithDot(Split(p)[i])
  }

  /** A dot at the very start of the path or right after a slash. */
  ghost predicate DotStartsComponent(p: string)
  {
    exists i :: 0 <= i < |p| && p[i] == '.' && (i == 0 || p[i - 1] == '/')
  }

  /** A dot right after a slash somewhere in the path. */
  ghost predicate DotAfterSlash(p: string)
  {
    exists i :: 1 <= i < |p| && p[i] == '.' && p[i - 1] == '/'
  }

  /** The first component starts with a dot iff the path does. */
  lemma FirstComponent(p: string)
    ensures StartsWithDot(Split(p)[0]) <==> |p| > 0 && p[0] == '.'
  {
  }

  /** A component after the first starts with a dot. */
  ghost predicate LaterDot(p: string)
  {
    exists k :: 1 <= k < |Split(p)| && StartsWithDot(Split(p)[k])
  }

  /** A component after the first starts with a dot iff some slash in the path is followed by a dot. */
  lemma {:induction false} LaterComponents(p: string)
    ensures LaterDot(p) <==> DotAfterSlash(p)
  {
    if p != [] {
      LaterComponents(p[1..]);
      FirstComponent(p[1..]);
      LaterDotCons(p);
      DotAfterSlashCons(p);
    }
  }

  /** LaterDot of a non-empty path, in terms of the path without its first character. */
  lemma LaterDotCons(p: string)
    requires p != []
    ensures LaterDot(p) <==>
      if p[0] == '/' then StartsWithDot(Split(p[1..])[0]) || LaterDot(p[1..]) else LaterDot(p[1..])
  {
    var rest, parts := Split(p[1..]), Split(p);
    if p[0] == '/' {
      assert parts == [""] + rest;
      if LaterDot(p) {
        var k :| 1 <= k < |parts| && StartsWithDot(parts[k]);
        assert parts[k] == rest[k - 1];
      }
      if LaterDot(p[1..]) {
        var k :| 1 <= k < |rest| && StartsWithDot(rest[k]);
        assert parts[k + 1] == rest[k];
      }
      if StartsWithDot(rest[0]) {
        assert parts[1] == rest[0];
      }
    } else {
      assert |parts| == |rest|;
      assert forall k :: 1 <= k < |parts| ==> parts[k] == rest[k];
    }
  }

  /** DotAfterSlash of a non-empty path, in terms of the path without its first character. */
  lemma DotAfterSlashCons(p: string)
    requires p != []
    ensures DotAfterSlash(p) <==> (|p| >= 2 && p[0] == '/' && p[1] == '.') || DotAfterSlash(p[1..])
  {
    var rest := p[1..];
    if DotAfterSlash(p) {
      var i :| 1 <= i < |p| && p[i] == '.' && p[i - 1] == '/';
      if i >= 2 {
        assert rest[i - 1] == '.' && rest[i - 2] == '/';
      }
    }
    if DotAfterSlash(rest) {
      var j :| 1 <= j < |rest| && rest[j] == '.' && rest[j - 1] == '/';
      assert p[j + 1] == '.' && p[j] == '/';
    }
  }

  /** Some component of a path starts with a dot iff a dot begins the path or follows one of its slashes. */
  lemma HiddenIff(p: string)
    ensures (exists i :: 0 <= i < |Split(p)| && StartsWithDot(Split(p)[i])) <==> DotStartsComponent(p)
  {
    FirstComponent(p);
    LaterComponents(p);
    if DotStartsComponent(p) && !(|p| > 0 && p[0] == '.') {
      var i :| 0 <= i < |p| && p[i] == '.' && (i == 0 || p[i - 1] == '/');
      assert DotAfterSlash(p);
    }
  }

  /** A file inside a hidden directory is hidden. */
  lemma HiddenDirectoryExample()
    ensures IsHidden("/home/bar/Documents/.Secret Folder/super_secret.txt")
  {
    var p := "/home/bar/Documents/.Secret Folder/super_secret.txt";
    assert p[20] == '.' && p[19] == '/';
  }

  /** A dot file is hidden. */
  lemma HiddenFileExample()
    ensures IsHidden("/home/bar/Documents/.passwords.txt")
  {
    var p := "/home/bar/Documents/.passwords.txt";
    assert p[20] == '.' && p[19] == '/';
  }

  /** Joining two paths that have no dot starting a component gives none either. */
  lemma NoDotStartConcat(a: string, b: string)
    requires !DotStartsComponent(a) && !DotStartsComponent(b)
    ensures !DotStartsComponent(a + b)
  {
    var p := a + b;
    forall i | 0 <= i < |p| && p[i] == '.' ensures i != 0 && p[i - 1] != '/' {
      if i < |a| {
        assert a[i] == '.';
      } else {
        assert b[i - |a|] == '.';
        if i > |a| {
          assert p[i - 1] == b[i - |a| - 1];
        }
      }
    }
  }

  /** A dot inside a name does not make it hidden. */
  lemma VisibleFileExample()
    ensures !IsHidden("/home/bar/Documents/Resume.odt")
  {
    assert !DotStartsComponent("/home/") by {
      assert forall i :: 0 <= i < 6 ==> "/home/"[i] != '.';
    }
    assert !DotStartsComponent("bar/Documents/") by {
      assert forall i :: 0 <= i < 14 ==> "bar/Documents/"[i] != '.';
    }
    assert !DotStartsComponent("Resume.odt") by {
      assert forall i :: 0 <= i < 10 && i != 6 ==> "Resume.odt"[i] != '.';
      assert "Resume.odt"[5] == 'e';
    }
    NoDotStartConcat("/home/", "bar/Documents/");
    assert "/home/" + "bar/Documents/" == "/home/bar/Documents/";
    NoDotStartConcat("/home/bar/Documents/", "Resume.odt");
    assert "/home/bar/Documents/" + "Resume.odt" == "/home/bar/Documents/Resume.odt";
  }
}
