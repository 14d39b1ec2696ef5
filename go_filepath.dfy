/**
  The functions of Go's `path/filepath` package that wpress.go calls, with
  the Unix separator '/': `Base`, `Ext` and `Join` (which cleans its result
  with `Clean`).  Each follows the package's documented semantics; `Clean`
  is stated over path elements rather than as Go's byte loop.
 */
module GoFilepath {
  import opened GoStrings

  /** `p` with every trailing '/' removed. */
  function StripTrailingSlashes(p: string): (r: string)
    ensures |r| <= |p| && r == p[..|r|]
    ensures r == "" || r[|r| - 1] != '/'
    ensures forall k | |r| <= k < |p| :: p[k] == '/'
    decreases |p|
  {
    if |p| > 0 && p[|p| - 1] == '/' then StripTrailingSlashes(p[..|p| - 1]) else p
  }

  /** The last element of `p`: its longest suffix free of '/'. */
  function LastElem(p: string): (r: string)
    ensures '/' !in r
    ensures HasSuffix(p, r)
    ensures |r| < |p| ==> p[|p| - |r| - 1] == '/'
    decreases |p|
  {
    if |p| == 0 || p[|p| - 1] == '/' then ""
    else LastElem(p[..|p| - 1]) + [p[|p| - 1]]
  }

  /** `filepath.Base`: the last element of the path after trailing slashes
      are removed; "." for the empty path and "/" for a path of slashes. */
  function Base(p: string): (r: string)
    ensures r != ""
    ensures r == "/" || '/' !in r
    ensures p == "" ==> r == "."
    ensures p != "" && (forall k | 0 <= k < |p| :: p[k] == '/') ==> r == "/"
    ensures p != "" && p[|p| - 1] != '/' ==> r == LastElem(p)
  {
    if p == "" then "."
    else
      var q := StripTrailingSlashes(p);
      if q == "" then "/" else LastElem(q)
  }

  /** `filepath.Ext`: the suffix of the last element that starts at its
      last '.', or "" when the last element has no '.'. */
  function Ext(p: string): string
    decreases |p|
  {
    if |p| == 0 || p[|p| - 1] == '/' then ""
    else if p[|p| - 1] == '.' then "."
    else
      var e := Ext(p[..|p| - 1]);
      if e == "" then "" else e + [p[|p| - 1]]
  }

  /** `strings.Split(s, "/")`: the pieces of s between separators, which
      is never empty. */
  function Split(s: string): (parts: seq<string>)
    ensures |parts| >= 1
    decreases |s|
  {
    if s == "" then [""]
    else
      var rest := Split(s[1..]);
      if s[0] == '/' then [""] + rest
      else [[s[0]] + rest[0]] + rest[1..]
  }

  /** `strings.Join(parts, "/")`. */
  function JoinSep(parts: seq<string>): string
    decreases |parts|
  {
    if parts == [] then ""
    else if |parts| == 1 then parts[0]
    else parts[0] + "/" + JoinSep(parts[1..])
  }

  /** The elements `Clean` drops: empty ones (from repeated separators)
      and "." (the current directory). */
  predicate Trivial(elem: string) {
    elem == "" || elem == "."
  }

  /** `elems` without its trivial elements, in order. */
  function NonTrivial(elems: seq<string>): seq<string>
    decreases |elems|
  {
    if elems == [] then []
    else (if Trivial(elems[0]) then [] else [elems[0]]) + NonTrivial(elems[1..])
  }

  /** Processes `elems` left to right onto the already resolved `acc`: a
      trivial element is dropped; ".." removes the preceding element that is
      not itself "..", is dropped at the root of a rooted path, and is kept
      otherwise; any other element is appended. */
  function Resolve(elems: seq<string>, rooted: bool, acc: seq<string>): seq<string>
    decreases |elems|
  {
    if elems == [] then acc
    else
      var e := elems[0];
      if Trivial(e) then Resolve(elems[1..], rooted, acc)
      else if e == ".." then
        if |acc| > 0 && acc[|acc| - 1] != ".." then Resolve(elems[1..], rooted, acc[..|acc| - 1])
        else if rooted then Resolve(elems[1..], rooted, acc)
        else Resolve(elems[1..], rooted, acc + [".."])
      else Resolve(elems[1..], rooted, acc + [e])
  }

  /** `filepath.Clean`: the shortest path equivalent to p by purely lexical
      processing; "." when that is empty. */
  function Clean(p: string): (r: string)
    ensures r != ""
  {
    var rooted := p != "" && p[0] == '/';
    var body := JoinSep(Resolve(Split(p), rooted, []));
    if rooted then "/" + body
    else if body == "" then "."
    else body
  }

  /** `filepath.Join(dir, name)`: the non-empty elements joined by '/' and
      cleaned; "" when both are empty. */
  function Join(dir: string, name: string): string {
    if dir != "" then Clean(dir + "/" + name)
    else if name != "" then Clean(name)
    else ""
  }

  /** No element of p is "..", so `Clean` never drops an element of it. */
  predicate NoDotDot(p: string) {
    forall i | 0 <= i < |Split(p)| :: Split(p)[i] != ".."
  }

  /** Some element of `parts` contains sub. */
  predicate SomeContains(parts: seq<string>, sub: string) {
    exists i | 0 <= i < |parts| :: Contains(parts[i], sub)
  }

  // ---------------------------------------------------------------------
  // Split and JoinSep

  lemma JoinSepPrepend(x: string, parts: seq<string>)
    requires parts != []
    ensures JoinSep([x + parts[0]] + parts[1..]) == x + JoinSep(parts)
  {
    var q := [x + parts[0]] + parts[1..];
    assert q[1..] == parts[1..];
  }

  /** Joining the pieces of s with '/' gives s back. */
  lemma {:induction false} JoinSplit(s: string)
    ensures JoinSep(Split(s)) == s
    decreases |s|
  {
    if s != "" {
      JoinSplit(s[1..]);
      var rest := Split(s[1..]);
      if s[0] == '/' {
        assert ([""] + rest)[1..] == rest;
        assert JoinSep([""] + rest) == "" + "/" + JoinSep(rest);
        assert s == "/" + s[1..];
      } else {
        JoinSepPrepend([s[0]], rest);
        assert s == [s[0]] + s[1..];
      }
    }
  }

  /** One unfolding of Split on a string that starts with c. */
  lemma SplitCons(c: char, t: string)
    ensures Split([c] + t) ==
      if c == '/' then [""] + Split(t) else [[c] + Split(t)[0]] + Split(t)[1..]
  {
    assert ([c] + t)[1..] == t;
  }

  /** The pieces of `a/b` are those of a followed by those of b. */
  lemma {:induction false} SplitAroundSeparator(a: string, b: string)
    ensures Split(a + "/" + b) == Split(a) + Split(b)
    decreases |a|
  {
    if a == "" {
      assert a + "/" + b == ['/'] + b;
      SplitCons('/', b);
    } else {
      var c, t := a[0], a[1..];
      assert a == [c] + t;
      assert a + "/" + b == [c] + (t + "/" + b);
      SplitAroundSeparator(t, b);
      SplitCons(c, t + "/" + b);
      SplitCons(c, t);
    }
  }

  /** A string without '/' is a single piece. */
  lemma {:induction false} SplitSingle(s: string)
    requires '/' !in s
    ensures Split(s) == [s]
    decreases |s|
  {
    if s != "" {
      assert '/' !in s[1..] by {
        forall k | 0 <= k < |s[1..]| ensures s[1..][k] != '/' {
          assert s[1..][k] == s[k + 1];
        }
      }
      SplitSingle(s[1..]);
      assert s == [s[0]] + s[1..];
    }
  }

  // ---------------------------------------------------------------------
  // Substrings of joined and split paths

  /** A non-empty substring free of '/' occurs in the joined elements
      exactly when it occurs in one element. */
  lemma {:induction false} ContainsJoinSep(parts: seq<string>, sub: string)
    requires sub != "" && '/' !in sub
    ensures Contains(JoinSep(parts), sub) <==> SomeContains(parts, sub)
    decreases |parts|
  {
    if parts == [] {
      if Contains("", sub) {
        ContainsLength("", sub);
      }
    } else if |parts| > 1 {
      var rest := parts[1..];
      ContainsJoinSep(rest, sub);
      if Contains(JoinSep(parts), sub) {
        ContainsAcrossSeparator(parts[0], JoinSep(rest), sub);
        if !Contains(parts[0], sub) {
          var i :| 0 <= i < |rest| && Contains(rest[i], sub);
          assert parts[i + 1] == rest[i];
        }
      }
      if SomeContains(parts, sub) {
        var i :| 0 <= i < |parts| && Contains(parts[i], sub);
        if i == 0 {
          ContainsLeft(parts[0], "/" + JoinSep(rest), sub);
          assert parts[0] + "/" + JoinSep(rest) == parts[0] + ("/" + JoinSep(rest));
        } else {
          assert rest[i - 1] == parts[i];
          ContainsRight(parts[0] + "/", JoinSep(rest), sub);
        }
      }
    }
  }

  /** A non-empty substring free of '/' occurs in s exactly when it occurs
      in one of the pieces of s. */
  lemma ContainsSplit(s: string, sub: string)
    requires sub != "" && '/' !in sub
    ensures Contains(s, sub) <==> SomeContains(Split(s), sub)
  {
    JoinSplit(s);
    ContainsJoinSep(Split(s), sub);
  }

  // ---------------------------------------------------------------------
  // What Resolve keeps

  /** Every element Resolve produces comes from acc, is "..", or is an
      element of elems. */
  lemma {:induction false} ResolveFrom(elems: seq<string>, rooted: bool, acc: seq<string>, k: nat)
    requires k < |Resolve(elems, rooted, acc)|
    ensures var x := Resolve(elems, rooted, acc)[k]; x in acc || x == ".." || x in elems
    decreases |elems|
  {
    if elems != [] {
      var e := elems[0];
      var next :=
        if Trivial(e) then acc
        else if e == ".." then
          if |acc| > 0 && acc[|acc| - 1] != ".." then acc[..|acc| - 1]
          else if rooted then acc
          else acc + [".."]
        else acc + [e];
      assert Resolve(elems, rooted, acc) == Resolve(elems[1..], rooted, next);
      ResolveFrom(elems[1..], rooted, next, k);
    }
  }

  /** Without ".." elements, Resolve only drops the trivial elements. */
  lemma {:induction false} ResolveWithoutDotDot(elems: seq<string>, rooted: bool, acc: seq<string>)
    requires forall i | 0 <= i < |elems| :: elems[i] != ".."
    ensures Resolve(elems, rooted, acc) == acc + NonTrivial(elems)
    decreases |elems|
  {
    if elems != [] {
      var e := elems[0];
      var rest := elems[1..];
      assert forall i | 0 <= i < |rest| :: rest[i] == elems[i + 1];
      var kept := if Trivial(e) then [] else [e];
      var next := if Trivial(e) then acc else acc + [e];
      assert e != "..";
      assert Resolve(elems, rooted, acc) == Resolve(rest, rooted, next);
      ResolveWithoutDotDot(rest, rooted, next);
      assert next == acc + kept;
      assert NonTrivial(elems) == kept + NonTrivial(rest);
      assert acc + kept + NonTrivial(rest) == acc + (kept + NonTrivial(rest));
    }
  }

  /** A non-trivial element survives NonTrivial. */
  lemma {:induction false} NonTrivialKeeps(elems: seq<string>, j: nat)
    requires j < |elems| && !Trivial(elems[j])
    ensures elems[j] in NonTrivial(elems)
    decreases |elems|
  {
    if j > 0 {
      NonTrivialKeeps(elems[1..], j - 1);
    }
  }

  // ---------------------------------------------------------------------
  // Clean and Join keep or lose substrings

  /** Clean invents no substring: a substring longer than ".." and free of
      '/' that occurs in Clean(p) occurs in p. */
  lemma CleanAddsNothing(p: string, sub: string)
    requires |sub| > 2 && '/' !in sub
    requires Contains(Clean(p), sub)
    ensures Contains(p, sub)
  {
    var rooted := p != "" && p[0] == '/';
    var elems := Resolve(Split(p), rooted, []);
    var body := JoinSep(elems);
    if rooted {
      assert Clean(p) == "" + "/" + body;
      ContainsAcrossSeparator("", body, sub);
      if Contains("", sub) {
        ContainsLength("", sub);
      }
    } else if body == "" {
      ContainsLength(Clean(p), sub);
    }
    assert Contains(body, sub);
    ContainsJoinSep(elems, sub);
    var k :| 0 <= k < |elems| && Contains(elems[k], sub);
    ResolveFrom(Split(p), rooted, [], k);
    if elems[k] == ".." {
      ContainsLength(elems[k], sub);
    }
    var j :| 0 <= j < |Split(p)| && Split(p)[j] == elems[k];
    ContainsSplit(p, sub);
  }

  /** Clean loses no substring of length at least 2 and free of '/' when no
      element of p is "..". */
  lemma CleanKeeps(p: string, sub: string)
    requires |sub| >= 2 && '/' !in sub
    requires NoDotDot(p)
    requires Contains(p, sub)
    ensures Contains(Clean(p), sub)
  {
    var rooted := p != "" && p[0] == '/';
    ContainsSplit(p, sub);
    var j :| 0 <= j < |Split(p)| && Contains(Split(p)[j], sub);
    var elem := Split(p)[j];
    ContainsLength(elem, sub);
    NonTrivialKeeps(Split(p), j);
    ResolveWithoutDotDot(Split(p), rooted, []);
    var elems := Resolve(Split(p), rooted, []);
    assert elems == NonTrivial(Split(p));
    var k :| 0 <= k < |elems| && elems[k] == elem;
    ContainsJoinSep(elems, sub);
    var body := JoinSep(elems);
    if rooted {
      ContainsRight("/", body, sub);
    } else {
      ContainsLength(body, sub);
    }
  }

  /** The elements of `dir/name` are those of dir and of name. */
  lemma NoDotDotAroundSeparator(dir: string, name: string)
    requires NoDotDot(dir) && NoDotDot(name)
    ensures NoDotDot(dir + "/" + name)
  {
    SplitAroundSeparator(dir, name);
    var s := Split(dir + "/" + name);
    forall i | 0 <= i < |s| ensures s[i] != ".." {
      if i < |Split(dir)| {
        assert s[i] == Split(dir)[i];
      } else {
        assert s[i] == Split(name)[i - |Split(dir)|];
      }
    }
  }

  /** A substring longer than ".." and free of '/' occurs in Join(dir, name)
      only if it occurs in dir or in name; when neither has a ".." element,
      the converse holds too. */
  lemma JoinContains(dir: string, name: string, sub: string)
    requires |sub| > 2 && '/' !in sub
    ensures Contains(Join(dir, name), sub) ==> Contains(dir, sub) || Contains(name, sub)
    ensures NoDotDot(dir) && NoDotDot(name) ==>
              (Contains(Join(dir, name), sub) <==> Contains(dir, sub) || Contains(name, sub))
  {
    if dir != "" {
      var p := dir + "/" + name;
      if Contains(Join(dir, name), sub) {
        CleanAddsNothing(p, sub);
        ContainsAcrossSeparator(dir, name, sub);
      }
      if NoDotDot(dir) && NoDotDot(name) && (Contains(dir, sub) || Contains(name, sub)) {
        NoDotDotAroundSeparator(dir, name);
        if Contains(dir, sub) {
          ContainsLeft(dir, "/" + name, sub);
          assert dir + ("/" + name) == p;
        } else {
          ContainsRight(dir + "/", name, sub);
        }
        CleanKeeps(p, sub);
      }
    } else {
      if Contains(dir, sub) {
        ContainsLength(dir, sub);
      }
      if name != "" {
        if Contains(Join(dir, name), sub) {
          CleanAddsNothing(name, sub);
        }
        if NoDotDot(name) && Contains(name, sub) {
          CleanKeeps(name, sub);
        }
      } else if Contains(name, sub) {
        ContainsLength(name, sub);
      }
    }
  }

  // ---------------------------------------------------------------------
  // Base and Ext

  lemma LastElemOfElement(t: string)
    requires '/' !in t
    ensures LastElem(t) == t
  {
    assert t[|t| - |LastElem(t)|..] == LastElem(t);
  }

  /** The last element of `dir/t`, for t free of '/', is t. */
  lemma LastElemAfterSeparator(dir: string, t: string)
    requires '/' !in t
    ensures LastElem(dir + "/" + t) == t
  {
    var p := dir + "/" + t;
    assert p[|p| - |t| - 1] == '/';
    assert p[|p| - |t|..] == t;
    var r := LastElem(p);
    assert p[|p| - |r|..] == r;
  }

  /** A path with a non-empty last element does not end in '/'. */
  lemma LastElemNonEmpty(p: string)
    requires LastElem(p) != ""
    ensures p != "" && p[|p| - 1] != '/'
  {
  }

  /** A trailing '/' does not change the base name, so neither do any
      number of them. */
  lemma BaseIgnoresTrailingSlash(p: string)
    requires p != ""
    ensures Base(p + "/") == Base(p)
  {
    assert (p + "/")[..|p|] == p;
  }

  /** A path ending in '/' has no extension. */
  lemma ExtOfSlash(q: string)
    requires q != "" && q[|q| - 1] == '/'
    ensures Ext(q) == ""
  {
  }

  /** One unfolding of Ext and LastElem on a path that ends in c, not '/'. */
  lemma ExtSnoc(init: string, c: char)
    requires c != '/'
    ensures LastElem(init + [c]) == LastElem(init) + [c]
    ensures Ext(init + [c]) ==
      if c == '.' then "." else if Ext(init) == "" then "" else Ext(init) + [c]
  {
    assert (init + [c])[..|init|] == init;
  }

  lemma ExtSuffixSnoc(l: string, e: string, c: char)
    requires e != "" && e[0] == '.' && '.' !in e[1..] && HasSuffix(l, e) && c != '.'
    ensures (e + [c])[0] == '.' && '.' !in (e + [c])[1..] && HasSuffix(l + [c], e + [c])
  {
    assert (e + [c])[1..] == e[1..] + [c];
    assert (l + [c])[|l| - |e|..] == l[|l| - |e|..] + [c];
  }

  /** The extension is empty exactly when the last element has no '.';
      otherwise it is the suffix of the last element from its last '.'. */
  lemma {:induction false} ExtShape(p: string)
    ensures Ext(p) == "" <==> '.' !in LastElem(p)
    ensures Ext(p) != "" ==> Ext(p)[0] == '.' && '.' !in Ext(p)[1..] && HasSuffix(LastElem(p), Ext(p))
    decreases |p|
  {
    if |p| > 0 && p[|p| - 1] != '/' {
      var init, c := p[..|p| - 1], p[|p| - 1];
      assert p == init + [c];
      ExtSnoc(init, c);
      var l := LastElem(init);
      if c == '.' {
        assert (l + [c])[|l|..] == ".";
      } else {
        ExtShape(init);
        var e := Ext(init);
        assert '.' in l + [c] <==> '.' in l;
        if e != "" {
          ExtSuffixSnoc(l, e, c);
        }
      }
    }
  }

  /** `Ext(q + "." + ext)` is "." + ext when ext holds neither '.' nor '/'. */
  lemma {:induction false} ExtAfterDot(q: string, ext: string)
    requires '.' !in ext && '/' !in ext
    ensures Ext(q + "." + ext) == "." + ext
    decreases |ext|
  {
    var p := q + "." + ext;
    if ext == "" {
      assert p[|p| - 1] == '.';
    } else {
      var init := ext[..|ext| - 1];
      var c := ext[|ext| - 1];
      assert c in ext;
      assert '.' !in init && '/' !in init by {
        forall k | 0 <= k < |init| ensures init[k] != '.' && init[k] != '/' {
          assert init[k] in ext;
        }
      }
      ExtAfterDot(q, init);
      assert p[..|p| - 1] == q + "." + init;
      assert p[|p| - 1] == c;
      assert Ext(p) == Ext(q + "." + init) + [c];
      assert "." + init + [c] == "." + ext;
    }
  }

  /** The extension of a path is that of its last element. */
  lemma {:induction false} ExtOfLastElem(p: string)
    ensures Ext(LastElem(p)) == Ext(p)
    decreases |p|
  {
    if |p| > 0 && p[|p| - 1] != '/' {
      var init, c := p[..|p| - 1], p[|p| - 1];
      assert p == init + [c];
      ExtSnoc(init, c);
      ExtSnoc(LastElem(init), c);
      ExtOfLastElem(init);
    }
  }
}
