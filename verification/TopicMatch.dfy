/**
 Topic filters. The character loop of the client against a matcher that goes level by level, and
 that matcher against section 4.7 of MQTT Version 3.1.1.
 */
module TopicMatch {

  // ---------------------------------------------------------------- the character loop

  /** A level is skipped up to the next separator or the end of the name. */
  function SkipLevel(name: string): (rest: string)
    ensures |rest| <= |name|
  {
    if name == [] || name[0] == '/' then name else SkipLevel(name[1..])
  }

  /** What the loop decides about the rest of a filter and the rest of a name. */
  function Scan(filter: string, name: string): bool
    decreases |filter|
  {
    if filter == [] || name == [] then filter == [] && name == []
    else
      var f, n := filter[0], name[0];
      if n == '/' && f != '/' then false
      else if f != '+' && f != '#' && f != n then false
      else if f == '+' then Scan(filter[1..], SkipLevel(name[1..]))
      else if f == '#' then Scan(filter[1..], [])
      else Scan(filter[1..], name[1..])
  }

  /** The filter is a C string: it ends before its first NUL, which is not part of `filter`. */
  method IsTopicMatched(filter: string, name: string) returns (matched: bool)
    ensures matched == Scan(filter, name)
  {
    var curf, curn := 0, 0;
    var end := |name|;
    while curf < |filter| && curn < end
      invariant curf <= |filter| && curn <= end
      invariant Scan(filter[curf..], name[curn..]) == Scan(filter, name)
      decreases |filter| - curf
    {
      ghost var fs, ns := filter[curf..], name[curn..];
      assert fs[1..] == filter[curf + 1..] && ns[1..] == name[curn + 1..];
      if name[curn] == '/' && filter[curf] != '/' {
        break;
      }
      if filter[curf] != '+' && filter[curf] != '#' && filter[curf] != name[curn] {
        break;
      }
      if filter[curf] == '+' {
        var nextpos := curn + 1;
        while nextpos < end && name[nextpos] != '/'
          invariant curn < end && nextpos == curn + 1
          invariant SkipLevel(name[nextpos..]) == SkipLevel(ns[1..])
        {
          assert name[nextpos..][1..] == name[nextpos + 1..];
          curn := curn + 1;
          nextpos := curn + 1;
        }
      } else if filter[curf] == '#' {
        curn := end - 1;
      }
      curf := curf + 1;
      curn := curn + 1;
    }
    matched := curn == end && curf == |filter|;
  }

  // ---------------------------------------------------------------- levels

  function FirstLevel(s: string): (l: string)
    ensures |l| <= |s| && '/' !in l && l <= s
    ensures |l| < |s| ==> s[|l|] == '/'
  {
    if s == [] || s[0] == '/' then [] else [s[0]] + FirstLevel(s[1..])
  }

  /** The levels of a filter or a name; there is always at least one. */
  function Levels(s: string): (ls: seq<string>)
    ensures |ls| >= 1
    decreases |s|
  {
    var l := FirstLevel(s);
    if |l| == |s| then [l] else [l] + Levels(s[|l| + 1..])
  }

  /** Section 4.7.1: a wildcard stands alone in its level, and `#` only in the last one. */
  predicate WellFormed(filter: seq<string>) {
    filter != [] ==>
    && ('+' in filter[0] ==> filter[0] == "+")
    && ('#' in filter[0] ==> filter[0] == "#" && |filter| == 1)
    && WellFormed(filter[1..])
  }

  /** Level by level: `+` takes one non-empty level, `#` a rest that begins with a non-empty level. */
  predicate MatchLevels(filter: seq<string>, name: seq<string>) {
    if filter == [] || name == [] then filter == [] && name == []
    else if filter[0] == "#" then name[0] != ""
    else if filter[0] == "+" then name[0] != "" && MatchLevels(filter[1..], name[1..])
    else filter[0] == name[0] && MatchLevels(filter[1..], name[1..])
  }

  lemma {:induction false} SkipIsRest(s: string)
    ensures SkipLevel(s) == s[|FirstLevel(s)|..]
    decreases |s|
  {
    if s != [] && s[0] != '/' {
      SkipIsRest(s[1..]);
    }
  }

  /** A level without wildcards is compared character by character. */
  lemma {:induction false} ScanLiteral(filter: string, name: string)
    requires '+' !in FirstLevel(filter) && '#' !in FirstLevel(filter)
    ensures var f, n := FirstLevel(filter), FirstLevel(name);
            Scan(filter, name) <==> f == n && Scan(filter[|f|..], name[|n|..])
    decreases |filter|
  {
    var f, n := FirstLevel(filter), FirstLevel(name);
    if f == [] {
      assert filter[0..] == filter;
      if n == [] {
        assert name[0..] == name;
      }
    } else if n == [] {
      assert name == [] || name[0] == '/';
    } else if filter[0] == name[0] {
      assert f[1..] == FirstLevel(filter[1..]) && n[1..] == FirstLevel(name[1..]);
      ScanLiteral(filter[1..], name[1..]);
      assert f == [f[0]] + f[1..] && n == [n[0]] + n[1..];
      assert filter[1..][|f| - 1..] == filter[|f|..] && name[1..][|n| - 1..] == name[|n|..];
    }
  }

  /** After a matching level both sides stand at a separator or at the end. */
  lemma ScanSeparator(filter: string, name: string)
    requires filter == [] || filter[0] == '/'
    requires name == [] || name[0] == '/'
    ensures Scan(filter, name) <==>
            if filter == [] || name == [] then filter == [] && name == [] else Scan(filter[1..], name[1..])
  {
  }

  lemma ScanPlus(filter: string, name: string)
    requires FirstLevel(filter) == "+"
    ensures Scan(filter, name) <==> FirstLevel(name) != "" && Scan(filter[1..], name[|FirstLevel(name)|..])
  {
  }

  lemma ScanHash(filter: string, name: string)
    requires FirstLevel(filter) == "#" && |filter| == 1
    ensures Scan(filter, name) <==> FirstLevel(name) != ""
  {
  }

  lemma LevelsUnfold(s: string)
    ensures var l := FirstLevel(s);
            Levels(s) == if |l| == |s| then [l] else [l] + Levels(s[|l| + 1..])
  {
  }

  /**
   For every well-formed filter and every name, the character loop accepts exactly when the levels
   match.
   */
  lemma {:induction false} ScanIsMatchLevels(filter: string, name: string)
    requires WellFormed(Levels(filter))
    ensures Scan(filter, name) <==> MatchLevels(Levels(filter), Levels(name))
    decreases |filter|
  {
    hide Scan, FirstLevel, SkipLevel;
    var f, n := FirstLevel(filter), FirstLevel(name);
    var fr, nr := filter[|f|..], name[|n|..];
    LevelsUnfold(filter);
    LevelsUnfold(name);
    if f == "#" {
      ScanHash(filter, name);
    } else {
      if f == "+" {
        ScanPlus(filter, name);
      } else {
        ScanLiteral(filter, name);
      }
      ScanSeparator(fr, nr);
      if fr != [] && nr != [] {
        assert fr[1..] == filter[|f| + 1..] && nr[1..] == name[|n| + 1..];
        ScanIsMatchLevels(fr[1..], nr[1..]);
      }
    }
  }

  // ---------------------------------------------------------------- section 4.7

  /** The match of section 4.7.1, without the rule about names that begin with `$`. */
  predicate LooseMatch(filter: seq<string>, name: seq<string>) {
    if filter == [] then name == []
    else if filter[0] == "#" then true
    else name != [] && (filter[0] == "+" || filter[0] == name[0]) && LooseMatch(filter[1..], name[1..])
  }

  /** Whether a filter ends in `#`. */
  predicate Open(filter: seq<string>) {
    filter != [] && filter[|filter| - 1] == "#"
  }

  /**
   The match of section 4.7.1 in one sentence: the levels before a last `#` face levels of the name that
   are theirs, or any if they are `+`, and without a `#` the name has no further levels.
   */
  lemma {:induction false} MatchLevelByLevel(filter: seq<string>, name: seq<string>)
    requires WellFormed(filter)
    ensures var n := if Open(filter) then |filter| - 1 else |filter|;
            LooseMatch(filter, name) <==>
            && (if Open(filter) then |name| >= n else |name| == n)
            && forall i :: 0 <= i < n ==> filter[i] == "+" || filter[i] == name[i]
    decreases |filter|
  {
    if filter != [] && filter[0] != "#" {
      if name != [] {
        MatchLevelByLevel(filter[1..], name[1..]);
        var n := if Open(filter) then |filter| - 1 else |filter|;
        if n <= |name| {
          MatchShifts(filter, name, n);
        }
      }
      HashIsLast(filter);
    }
  }

  /** In a well-formed filter only the last level can be `#`. */
  lemma {:induction false} HashIsLast(filter: seq<string>)
    requires WellFormed(filter)
    ensures forall i :: 0 <= i < |filter| - 1 ==> filter[i] != "#"
    decreases |filter|
  {
    if filter != [] {
      HashIsLast(filter[1..]);
      forall i | 0 <= i < |filter| - 1
        ensures filter[i] != "#"
      {
        if i > 0 {
          assert filter[1..][i - 1] == filter[i];
        }
      }
    }
  }

  lemma MatchShifts(filter: seq<string>, name: seq<string>, n: nat)
    requires filter != [] && filter[0] != "#" && 1 <= n <= |filter| && n <= |name|
    ensures Open(filter) == Open(filter[1..])
    ensures (forall i :: 0 <= i < n ==> filter[i] == "+" || filter[i] == name[i]) <==>
            && (filter[0] == "+" || filter[0] == name[0])
            && forall i :: 0 <= i < n - 1 ==> filter[1..][i] == "+" || filter[1..][i] == name[1..][i]
  {
    if forall i :: 0 <= i < n ==> filter[i] == "+" || filter[i] == name[i] {
      assert filter[0] == "+" || filter[0] == name[0];
    } else {
      var i :| 0 <= i < n && !(filter[i] == "+" || filter[i] == name[i]);
      if i > 0 {
        assert filter[1..][i - 1] == filter[i] && name[1..][i - 1] == name[i];
      }
    }
  }

  /** Section 4.7.2: a filter that begins with a wildcard does not match a name that begins with `$`. */
  predicate Reserved(filter: seq<string>, name: string) {
    name != [] && name[0] == '$' && filter != [] && (filter[0] == "+" || filter[0] == "#")
  }

  predicate StandardMatch(filter: string, name: string) {
    LooseMatch(Levels(filter), Levels(name)) && !Reserved(Levels(filter), name)
  }

  /** Every wildcard of the filter faces a level of the name, and that level is not empty. */
  predicate WildcardsFaceLevels(filter: seq<string>, name: seq<string>) {
    forall i :: 0 <= i < |filter| && (filter[i] == "+" || filter[i] == "#") ==> i < |name| && name[i] != ""
  }

  lemma FacingUnfolds(filter: seq<string>, name: seq<string>)
    requires filter != []
    ensures WildcardsFaceLevels(filter, name) <==>
            && (filter[0] == "+" || filter[0] == "#" ==> name != [] && name[0] != "")
            && WildcardsFaceLevels(filter[1..], if name == [] then [] else name[1..])
  {
  }

  lemma {:induction false} MatchLevelsIsLooseAndFacing(filter: seq<string>, name: seq<string>)
    requires WellFormed(filter)
    ensures MatchLevels(filter, name) <==> LooseMatch(filter, name) && WildcardsFaceLevels(filter, name)
    decreases |filter|
  {
    hide WildcardsFaceLevels;
    if filter == [] {
      NothingToFace(name);
    } else {
      FacingUnfolds(filter, name);
      if filter[0] == "#" {
        assert filter[1..] == [];
        NothingToFace(if name == [] then [] else name[1..]);
      } else {
        MatchLevelsIsLooseAndFacing(filter[1..], if name == [] then [] else name[1..]);
      }
    }
  }

  lemma NothingToFace(name: seq<string>)
    ensures WildcardsFaceLevels([], name)
  {
  }

  /** The client's matcher in the terms of the standard, for every well-formed filter. */
  lemma ClientMatch(filter: string, name: string)
    requires WellFormed(Levels(filter))
    ensures Scan(filter, name) <==>
            LooseMatch(Levels(filter), Levels(name)) && WildcardsFaceLevels(Levels(filter), Levels(name))
  {
    hide *;
    ScanIsMatchLevels(filter, name);
    MatchLevelsIsLooseAndFacing(Levels(filter), Levels(name));
  }

  /**
   Where client and standard agree: a name the standard matches is accepted by the client exactly
   when every wildcard faces a non-empty level; one it does not match is rejected by the client
   unless that is for the `$` rule alone.
   */
  lemma AgreesWithStandard(filter: string, name: string)
    requires WellFormed(Levels(filter))
    ensures StandardMatch(filter, name) ==>
              (Scan(filter, name) <==> WildcardsFaceLevels(Levels(filter), Levels(name)))
    ensures !StandardMatch(filter, name) ==>
              (Scan(filter, name) <==> Reserved(Levels(filter), name) && MatchLevels(Levels(filter), Levels(name)))
    ensures WildcardsFaceLevels(Levels(filter), Levels(name)) && !Reserved(Levels(filter), name) ==>
              (Scan(filter, name) <==> StandardMatch(filter, name))
  {
    hide WildcardsFaceLevels, MatchLevels, LooseMatch, Reserved, Scan, Levels;
    ClientMatch(filter, name);
    ScanIsMatchLevels(filter, name);
  }

  lemma {:induction false} FirstLevelOf(l: string, rest: string)
    requires '/' !in l && (rest == [] || rest[0] == '/')
    ensures FirstLevel(l + rest) == l
    decreases |l|
  {
    if l == [] {
      assert l + rest == rest;
    } else {
      FirstLevelOf(l[1..], rest);
      assert (l + rest)[1..] == l[1..] + rest;
    }
  }

  /** Splitting undoes joining with separators. */
  lemma SplitJoined(l: string, rest: string)
    requires '/' !in l
    ensures Levels(l) == [l] && Levels(l + "/" + rest) == [l] + Levels(rest)
  {
    FirstLevelOf(l, "");
    assert l + "" == l;
    FirstLevelOf(l, "/" + rest);
    assert l + ("/" + rest) == l + "/" + rest;
    assert (l + "/" + rest)[|l| + 1..] == rest;
  }

  /** A filter that the standard does not allow: `#` takes the rest of the name, and nothing may follow it. */
  lemma HashInTheMiddle(rest: string, name: string)
    requires name != "" && name[0] != '/'
    ensures Scan("#" + rest, name) <==> rest == ""
  {
    var filter := "#" + rest;
    assert filter[1..] == rest;
  }

  /** Another: behind a character, `+` takes what is left of the level, and at least one more character. */
  lemma PlusInTheMiddle(c: char, l: string)
    requires c !in "/+#" && '/' !in l
    ensures Scan([c, '+'], [c] + l) <==> l != ""
  {
    var name := [c] + l;
    assert [c, '+'][1..] == "+" && name[1..] == l;
    if l != "" {
      SkipIsRest(l[1..]);
      FirstLevelOf(l[1..], "");
      assert l[1..] + "" == l[1..] && l[0] in l && "+"[1..] == "";
      assert SkipLevel(l[1..]) == "";
    }
  }

  /** The standard lets `#` match the parent level; the client does not. */
  lemma ParentLevelDiffers()
    ensures StandardMatch("a/#", "a") && !Scan("a/#", "a")
  {
  }

  /** The standard lets `+` match an empty level; the client does not. */
  lemma EmptyLevelDiffers()
    ensures StandardMatch("+/b", "/b") && !Scan("+/b", "/b")
  {
  }

  /** The standard lets `#` match a rest that begins with an empty level; the client does not. */
  lemma EmptyRestDiffers()
    ensures StandardMatch("#", "/b") && !Scan("#", "/b")
  {
  }

  /** The standard keeps names that begin with `$` from a leading wildcard; the client does not. */
  lemma DollarDiffers()
    ensures !StandardMatch("#", "$") && Scan("#", "$")
  {
  }
}
