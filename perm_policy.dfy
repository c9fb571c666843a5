/**
 * The permission policy of `load_perms_options` and `checkPerms`
 * (php/commands/secure.php:92-101, 229-253): a parsed `fileperms.yml`, the
 * default modes it supplies, and the ordered pattern rules of the active
 * profile, of which the last that matches wins.
 */
module PermPolicy {
  import opened Wrappers
  import opened PhpStrings
  import opened FileSystem

  /** One `pattern => permission` pair of a PHP array, in declared order. */
  datatype Rule = Rule(pattern: string, perm: string)

  /** A top-level value of the parsed document: a scalar or an array. */
  datatype Setting = Scalar(text: string) | Table(rules: seq<Rule>)

  /** The parsed document, by top-level key. */
  type Perms = map<string, Setting>

  /** `$array[$key]`: the permission stored under `key`. */
  function Lookup(rules: seq<Rule>, key: string): Option<string> {
    if rules == [] then None
    else if rules[0].pattern == key then Some(rules[0].perm)
    else Lookup(rules[1..], key)
  }

  /** A lookup finds a value exactly when the key is present, and the value found is stored under that key. */
  lemma {:induction false} LookupSpec(rules: seq<Rule>, key: string)
    ensures var r := Lookup(rules, key);
            && (r.None? <==> forall i :: 0 <= i < |rules| ==> rules[i].pattern != key)
            && (r.Some? ==> exists i :: 0 <= i < |rules| && rules[i] == Rule(key, r.value))
  {
    if rules != [] {
      if rules[0].pattern == key {
        assert rules[0] == Rule(key, rules[0].perm);
      } else {
        LookupSpec(rules[1..], key);
        assert forall i :: 1 <= i < |rules| ==> rules[i] == rules[1..][i - 1];
        var r := Lookup(rules[1..], key);
        if r.Some? {
          var i :| 0 <= i < |rules[1..]| && rules[1..][i] == Rule(key, r.value);
          assert rules[i + 1] == Rule(key, r.value);
        }
      }
    }
  }

  /** The array `load_perms_options` installs when `default` is not an array. */
  const FallbackDefault := Table([Rule("file", "0755"), Rule("directory", "0755")])

  /** `$this->perms['default']['file']` or `['directory']`; PHP's null, when absent, reads as "". */
  function DefaultPerm(perms: Perms, isDir: bool): string {
    var key := if isDir then "directory" else "file";
    if "default" in perms && perms["default"].Table? then Lookup(perms["default"].rules, key).GetOr("")
    else ""
  }

  /**
   * `load_perms_options` after parsing: the document, with `default`
   * replaced by 0755 for files and directories unless it is an array.
   */
  function WithDefaults(parsed: Perms): (r: Perms)
    ensures "default" in r && r["default"].Table?
    ensures "default" in parsed && parsed["default"].Table? ==> r == parsed
    ensures !("default" in parsed && parsed["default"].Table?) ==>
              DefaultPerm(r, false) == "0755" && DefaultPerm(r, true) == "0755"
    ensures forall k :: k != "default" ==> (k in r <==> k in parsed) && (k in parsed ==> r[k] == parsed[k])
  {
    if "default" in parsed && parsed["default"].Table? then parsed
    else parsed["default" := FallbackDefault]
  }

  /**
   * The rules `foreach` runs over: the profile's array, or nothing when the
   * profile is absent or not an array (PHP warns and skips the loop).
   */
  function ProfileRules(perms: Perms, profile: string): seq<Rule> {
    if profile in perms && perms[profile].Table? then perms[profile].rules else []
  }

  /**
   * The permission left by testing the rules in order, each match replacing
   * the current one: the permission of the last matching rule, or `start`
   * when none matches.
   */
  function LastMatch(rules: seq<Rule>, path: string, start: string, matches: (string, string) -> bool): string
    decreases |rules|
  {
    if rules == [] then start
    else if matches(rules[|rules| - 1].pattern, path) then rules[|rules| - 1].perm
    else LastMatch(rules[..|rules| - 1], path, start, matches)
  }

  /**
   * With no matching rule the starting permission stands; otherwise the last
   * matching rule decides; either way the result is the start or the
   * permission of a matching rule.
   */
  lemma {:induction false} LastMatchWins(rules: seq<Rule>, path: string, start: string, matches: (string, string) -> bool)
    ensures var perm := LastMatch(rules, path, start, matches);
            && ((forall k :: 0 <= k < |rules| ==> !matches(rules[k].pattern, path)) ==> perm == start)
            && (forall j :: 0 <= j < |rules| && matches(rules[j].pattern, path) &&
                            (forall k :: j < k < |rules| ==> !matches(rules[k].pattern, path)) ==>
                              perm == rules[j].perm)
            && (perm == start || exists j :: 0 <= j < |rules| && matches(rules[j].pattern, path) && perm == rules[j].perm)
    decreases |rules|
  {
    if rules != [] {
      var n := |rules| - 1;
      if !matches(rules[n].pattern, path) {
        var init := rules[..n];
        LastMatchWins(init, path, start, matches);
        assert forall k :: 0 <= k < n ==> init[k] == rules[k];
        var perm := LastMatch(rules, path, start, matches);
        assert perm == LastMatch(init, path, start, matches);
        if perm != start {
          var j :| 0 <= j < |init| && matches(init[j].pattern, path) && perm == init[j].perm;
          assert rules[j] == init[j];
        }
      }
    }
  }

  /**
   * What `checkPerms` applies to an existing path: the default for its type,
   * overridden by the active profile's rules when the profile name is truthy.
   */
  function Resolve(perms: Perms, profile: string, path: string, isDir: bool, matches: (string, string) -> bool): string {
    LastMatch(if Truthy(profile) then ProfileRules(perms, profile) else [], path, DefaultPerm(perms, isDir), matches)
  }

  /** Order matters: of two matching rules the later one wins; a rule that does not match is passed over. */
  lemma LaterRuleWins(r1: Rule, r2: Rule, path: string, start: string, matches: (string, string) -> bool)
    requires matches(r1.pattern, path)
    ensures matches(r2.pattern, path) ==> LastMatch([r1, r2], path, start, matches) == r2.perm
    ensures !matches(r2.pattern, path) ==> LastMatch([r1, r2], path, start, matches) == r1.perm
  {
  }

  /**
   * With the `default` profile the rules run over are the `default` array
   * itself, so its keys `file` and `directory` act as patterns too: a
   * directory whose path matches `file` (and not `directory`) receives the
   * file permission.
   */
  lemma DefaultKeysArePatterns(perms: Perms, f: string, d: string, path: string, matches: (string, string) -> bool)
    requires "default" in perms && perms["default"] == Table([Rule("file", f), Rule("directory", d)])
    requires matches("file", path) && !matches("directory", path)
    ensures Resolve(perms, "default", path, true, matches) == f
  {
    var rules := [Rule("file", f), Rule("directory", d)];
    assert Truthy("default");
    assert rules[..1] == [Rule("file", f)];
    assert LastMatch(rules, path, DefaultPerm(perms, true), matches) == f;
  }

  /**
   * A permission string of at most four characters fits the twelve
   * permission bits, so chmod stores exactly the value `octdec` reads; the
   * fallback `0755` is stored as 0x1ED.
   */
  lemma PolicyModeStored(perm: string)
    requires |perm| <= 4
    ensures Octdec(perm) < 0x1000 && PermissionBits(Octdec(perm)) == Octdec(perm)
    ensures perm == "0755" ==> PermissionBits(Octdec(perm)) == 0x1ED
  {
    OctdecBelow(perm);
    assert Pow8(|perm|) <= 0x1000 by {
      assert Pow8(0) == 1 && Pow8(1) == 8 && Pow8(2) == 64 && Pow8(3) == 512 && Pow8(4) == 0x1000;
    }
    if perm == "0755" {
      OctdecFallback();
    }
  }

  /** The filesystem after `checkPerms(path)`. */
  function PermsApplied(d: Disk, perms: Perms, profile: string, matches: (string, string) -> bool, path: string): Disk {
    if !d.Exists(path) then d
    else d.Chmod(path, Octdec(Resolve(perms, profile, path, d.IsDir(path), matches)))
  }

  /**
   * A missing path is left alone; an existing one gets the octal value of
   * its resolved permission, and no other mode or entry changes.
   */
  lemma PermsAppliedSpec(d: Disk, perms: Perms, profile: string, matches: (string, string) -> bool, path: string)
    ensures var r := PermsApplied(d, perms, profile, matches, path);
            && r.tree == d.tree
            && (!d.Exists(path) ==> r == d)
            && (d.Exists(path) ==>
                  r.modes == d.modes[path := PermissionBits(Octdec(Resolve(perms, profile, path, d.IsDir(path), matches)))])
  {
  }
}
