/**
 * The PHP string built-ins that php/commands/secure.php uses on paths:
 * `str_replace`, `rtrim`, `ltrim`, `strstr` with PHP truthiness, `dirname`,
 * `basename` and `octdec`.
 */
module PhpStrings {
  import opened Wrappers

  /** `f` occurs in `s` starting at index `i`. */
  predicate OccursAt(s: string, f: string, i: nat) {
    i + |f| <= |s| && s[i..i + |f|] == f
  }

  /** `f` is a substring of `s`. */
  predicate Contains(s: string, f: string) {
    exists i: nat | i <= |s| :: OccursAt(s, f, i)
  }

  /** When `f` does not start `s`, `f` occurs in `s` exactly when it occurs in `s[1..]`. */
  lemma ContainsTail(s: string, f: string)
    requires s != [] && !OccursAt(s, f, 0)
    ensures Contains(s, f) <==> Contains(s[1..], f)
  {
    if Contains(s, f) {
      var i: nat :| i <= |s| && OccursAt(s, f, i);
      assert i > 0;
      assert s[1..][i - 1..i - 1 + |f|] == s[i..i + |f|];
      assert OccursAt(s[1..], f, i - 1);
    }
    if Contains(s[1..], f) {
      var i: nat :| i <= |s[1..]| && OccursAt(s[1..], f, i);
      assert s[1..][i..i + |f|] == s[i + 1..i + 1 + |f|];
      assert OccursAt(s, f, i + 1);
    }
  }

  /**
   * `str_replace(search, repl, s)`: every occurrence of `search`, found left
   * to right without overlap, is replaced by `repl`; an empty `search` leaves
   * `s` as it is.
   */
  function Replace(s: string, search: string, repl: string): string
    decreases |s|
  {
    if search == [] || |s| < |search| then s
    else if s[..|search|] == search then repl + Replace(s[|search|..], search, repl)
    else [s[0]] + Replace(s[1..], search, repl)
  }

  /** A subject that does not contain the search string comes back unchanged. */
  lemma {:induction false} ReplaceAbsent(s: string, search: string, repl: string)
    requires !Contains(s, search)
    ensures Replace(s, search, repl) == s
    decreases |s|
  {
    if search != [] && |s| >= |search| {
      assert !OccursAt(s, search, 0);
      ContainsTail(s, search);
      ReplaceAbsent(s[1..], search, repl);
    }
  }

  /** `rtrim(s, c)`: `s` without its trailing run of `c`. */
  function RTrim(s: string, c: char): string {
    if s != [] && s[|s| - 1] == c then RTrim(s[..|s| - 1], c) else s
  }

  /** `rtrim` keeps a prefix that does not end in `c`, and removes only `c`s. */
  lemma {:induction false} RTrimSpec(s: string, c: char)
    ensures var r := RTrim(s, c);
            && |r| <= |s| && r == s[..|r|]
            && (r == [] || r[|r| - 1] != c)
            && (forall i :: |r| <= i < |s| ==> s[i] == c)
  {
    if s != [] && s[|s| - 1] == c {
      var t := s[..|s| - 1];
      RTrimSpec(t, c);
      var r := RTrim(t, c);
      assert r == s[..|r|];
    }
  }

  /** `ltrim(s, c)`: `s` without its leading run of `c`. */
  function LTrim(s: string, c: char): string {
    if s != [] && s[0] == c then LTrim(s[1..], c) else s
  }

  /** `ltrim` keeps a suffix that does not start with `c`, and removes only `c`s. */
  lemma {:induction false} LTrimSpec(s: string, c: char)
    ensures var r := LTrim(s, c);
            && |r| <= |s| && r == s[|s| - |r|..]
            && (r == [] || r[0] != c)
            && (forall i :: 0 <= i < |s| - |r| ==> s[i] == c)
  {
    if s != [] && s[0] == c {
      LTrimSpec(s[1..], c);
      var r := LTrim(s[1..], c);
      assert r == s[|s| - |r|..];
      forall i | 0 <= i < |s| - |r|
        ensures s[i] == c
      {
        if i > 0 {
          assert s[i] == s[1..][i - 1];
        }
      }
    }
  }

  /**
   * `strstr(h, n)`: the tail of `h` from the first occurrence of `n`, or
   * `false` (None) when there is none. An empty needle yields `false`, as in
   * PHP 5.
   */
  function StrStr(h: string, n: string): Option<string>
    decreases |h|
  {
    if n == [] || |h| < |n| then None
    else if h[..|n|] == n then Some(h)
    else StrStr(h[1..], n)
  }

  /**
   * `strstr` finds something exactly when the needle is non-empty and
   * occurs, and what it finds is the suffix of the haystack that starts at
   * the needle's first occurrence.
   */
  lemma {:induction false} StrStrSpec(h: string, n: string)
    ensures var r := StrStr(h, n);
            && (r.Some? <==> n != [] && Contains(h, n))
            && (r.Some? ==> |n| <= |r.value| <= |h| && r.value == h[|h| - |r.value|..] && r.value[..|n|] == n)
            && (r.Some? ==> forall i :: 0 <= i < |h| - |r.value| ==> !OccursAt(h, n, i))
    decreases |h|
  {
    if n == [] {
      assert OccursAt(h, n, 0);
    } else if |h| < |n| {
      assert !Contains(h, n);
    } else if h[..|n|] == n {
      assert OccursAt(h, n, 0);
    } else {
      ContainsTail(h, n);
      StrStrSpec(h[1..], n);
    }
    StrStrFirst(h, n);
  }

  /** No occurrence of the needle comes before the suffix `strstr` returns. */
  lemma {:induction false} StrStrFirst(h: string, n: string)
    ensures var r := StrStr(h, n);
            r.Some? ==> forall i :: 0 <= i < |h| - |r.value| ==> !OccursAt(h, n, i)
    decreases |h|
  {
    if n != [] && |h| >= |n| && h[..|n|] != n {
      StrStrFirst(h[1..], n);
      var r := StrStr(h[1..], n);
      if r.Some? {
        forall i | 0 <= i < |h| - |r.value|
          ensures !OccursAt(h, n, i)
        {
          if i > 0 && i + |n| <= |h| {
            assert h[1..][i - 1..i - 1 + |n|] == h[i..i + |n|];
            assert !OccursAt(h[1..], n, i - 1);
          }
        }
      }
    }
  }

  /** PHP's truthiness of a string: everything except "" and "0". */
  predicate Truthy(s: string) {
    s != "" && s != "0"
  }

  /** `s` without its trailing run of characters other than '/'. */
  function DropName(s: string): (r: string)
    ensures |r| <= |s| && r == s[..|r|]
    ensures r == [] || r[|r| - 1] == '/'
    ensures forall i :: |r| <= i < |s| ==> s[i] != '/'
  {
    if s != [] && s[|s| - 1] != '/' then DropName(s[..|s| - 1]) else s
  }

  /** `dirname(p)`: the path without its last component and the slashes before it. */
  function Dirname(p: string): string {
    var t := RTrim(p, '/');
    if t == [] then (if p == [] then "" else "/")
    else
      var h := DropName(t);
      if h == [] then "."
      else
        var u := RTrim(h, '/');
        if u == [] then "/" else u
  }

  /** `basename(p)`: the last component of the path. */
  function Basename(p: string): string {
    var t := RTrim(p, '/');
    t[|DropName(t)|..]
  }

  lemma {:induction false} DropNameOfName(dir: string, name: string)
    requires '/' !in name
    ensures DropName(dir + "/" + name) == dir + "/"
    decreases |name|
  {
    var s := dir + "/" + name;
    if name == [] {
      assert s == dir + "/";
    } else {
      assert s[|s| - 1] == name[|name| - 1];
      assert s[..|s| - 1] == dir + "/" + name[..|name| - 1];
      DropNameOfName(dir, name[..|name| - 1]);
    }
  }

  /**
   * Joining a directory (not ending in '/') and an entry name (no '/') with
   * '/' is undone by `dirname` and `basename`.
   */
  lemma SplitJoin(dir: string, name: string)
    requires dir != [] && dir[|dir| - 1] != '/'
    requires name != [] && '/' !in name
    ensures Dirname(dir + "/" + name) == dir
    ensures Basename(dir + "/" + name) == name
  {
    var p := dir + "/" + name;
    assert p[|p| - 1] == name[|name| - 1];
    assert RTrim(p, '/') == p;
    DropNameOfName(dir, name);
    var h := dir + "/";
    assert h[..|h| - 1] == dir;
    assert RTrim(dir, '/') == dir;
    assert RTrim(h, '/') == dir;
    assert p[|h|..] == name;
  }

  predicate IsOctalDigit(c: char) {
    '0' <= c <= '7'
  }

  /** `octdec(s)`: the octal value of the digits of `s`; other characters are ignored. */
  function Octdec(s: string): nat {
    if s == [] then 0
    else
      var c := s[|s| - 1];
      if IsOctalDigit(c) then 8 * Octdec(s[..|s| - 1]) + (c as int - '0' as int)
      else Octdec(s[..|s| - 1])
  }

  /** A leading zero or a leading non-octal character does not change the value. */
  lemma {:induction false} OctdecLeadingZero(c: char, s: string)
    requires c == '0' || !IsOctalDigit(c)
    ensures Octdec([c] + s) == Octdec(s)
    decreases |s|
  {
    if s != [] {
      var t := [c] + s;
      assert t[..|t| - 1] == [c] + s[..|s| - 1];
      assert t[|t| - 1] == s[|s| - 1];
      OctdecLeadingZero(c, s[..|s| - 1]);
    }
  }

  /** `8` to the power `k`: the first value that `k` octal digits cannot reach. */
  function Pow8(k: nat): nat {
    if k == 0 then 1 else 8 * Pow8(k - 1)
  }

  /** `octdec` of a string of `k` characters is below 8 to the power `k`. */
  lemma {:induction false} OctdecBelow(s: string)
    ensures Octdec(s) < Pow8(|s|)
    decreases |s|
  {
    if s != [] {
      OctdecBelow(s[..|s| - 1]);
    }
  }

  /** The permission string of the fallback `default` array. */
  lemma OctdecFallback()
    ensures Octdec("0755") == 0x1ED
  {
    assert "0755"[..3] == "075" && "075"[..2] == "07" && "07"[..1] == "0" && "0"[..0] == "";
  }
}
