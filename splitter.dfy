/** `split_tokens_by_key_token`: cut a token list into runs at a marker token.

    The loop keeps the run collected so far; at a marker it closes that run if it is
    non-empty (an empty run before the first marker or between two adjacent markers is
    dropped), optionally emits the marker as a group of its own, and after the loop it
    always appends the last run, even an empty one. */
module Splitter {
  import opened Sequences

  /** The groups the loop still emits when `s` is left to read and `cur` is the run
      collected so far (the final `groups.append(cur_group)` included). */
  function SplitFrom(s: seq<string>, key: string, includeKey: bool, cur: seq<string>): (r: seq<seq<string>>)
    ensures |r| >= 1
    decreases |s|
  {
    if s == [] then [cur]
    else if s[0] == key then
      (if |cur| > 0 then [cur] else []) + (if includeKey then [[key]] else [])
      + SplitFrom(s[1..], key, includeKey, [])
    else SplitFrom(s[1..], key, includeKey, cur + [s[0]])
  }

  /** The result of `split_tokens_by_key_token(s, key, includeKey)`. */
  function Split(s: seq<string>, key: string, includeKey: bool): (r: seq<seq<string>>)
    ensures |r| >= 1
    ensures s == [] ==> r == [[]]
  {
    SplitFrom(s, key, includeKey, [])
  }

  /** The loop of the source, proved to produce `Split(tokens, key, includeKey)`. */
  method SplitTokensByKeyToken(tokens: seq<string>, key: string, includeKey: bool := false)
    returns (groups: seq<seq<string>>)
    ensures groups == Split(tokens, key, includeKey)
  {
    groups := [];
    var cur: seq<string> := [];
    for i := 0 to |tokens|
      invariant groups + SplitFrom(tokens[i..], key, includeKey, cur) == Split(tokens, key, includeKey)
    {
      var tok := tokens[i];
      assert tokens[i..][0] == tok && tokens[i..][1..] == tokens[i + 1..];
      if tok == key {
        if |cur| > 0 {
          groups := groups + [cur];
          cur := [];
        }
        if includeKey {
          groups := groups + [[tok]];
        }
      } else {
        cur := cur + [tok];
      }
    }
    assert tokens[|tokens|..] == [];
    groups := groups + [cur];
  }

  // ---- Conservation of tokens ----

  lemma {:induction false} SplitFromDropped(s: seq<string>, key: string, cur: seq<string>)
    ensures Flatten(SplitFrom(s, key, false, cur)) == cur + Remove(s, key)
    decreases |s|
  {
    if s == [] {
      assert Flatten([cur]) == cur + Flatten([cur][1..]);
    } else if s[0] == key {
      var head: seq<seq<string>> := if |cur| > 0 then [cur] else [];
      SplitFromDropped(s[1..], key, []);
      FlattenAppend(head, SplitFrom(s[1..], key, false, []));
      assert head + [] == head;
      assert Flatten(head) == cur by {
        if |cur| > 0 { assert Flatten(head) == cur + Flatten(head[1..]); }
      }
    } else {
      SplitFromDropped(s[1..], key, cur + [s[0]]);
    }
  }

  /** Without the marker, the groups concatenate to the input with every marker removed. */
  lemma SplitDropsOnlyKeys(s: seq<string>, key: string)
    ensures Flatten(Split(s, key, false)) == Remove(s, key)
  {
    SplitFromDropped(s, key, []);
  }

  lemma {:induction false} SplitFromKept(s: seq<string>, key: string, cur: seq<string>)
    ensures Flatten(SplitFrom(s, key, true, cur)) == cur + s
    decreases |s|
  {
    if s == [] {
      assert Flatten([cur]) == cur + Flatten([cur][1..]);
    } else if s[0] == key {
      var head: seq<seq<string>> := if |cur| > 0 then [cur] else [];
      SplitFromKept(s[1..], key, []);
      FlattenAppend(head, [[key]]);
      FlattenAppend(head + [[key]], SplitFrom(s[1..], key, true, []));
      assert Flatten([[key]]) == [key] + Flatten([[key]][1..]);
      assert Flatten(head) == cur by {
        if |cur| > 0 { assert Flatten(head) == cur + Flatten(head[1..]); }
      }
      assert s == [key] + s[1..];
    } else {
      SplitFromKept(s[1..], key, cur + [s[0]]);
      assert s == [s[0]] + s[1..];
    }
  }

  /** With the marker kept, the groups concatenate back to the input exactly. */
  lemma SplitKeepsEverything(s: seq<string>, key: string)
    ensures Flatten(Split(s, key, true)) == s
  {
    SplitFromKept(s, key, []);
  }

  // ---- Shape of the groups ----

  /** Every group is free of the marker, except singleton `[key]` groups when markers are kept. */
  predicate KeyOnlyAlone(r: seq<seq<string>>, key: string, includeKey: bool)
  {
    forall i :: 0 <= i < |r| ==> (includeKey && r[i] == [key]) || key !in r[i]
  }

  /** Only the last group may be empty. */
  predicate NonEmptyButLast(r: seq<seq<string>>)
  {
    forall i :: 0 <= i < |r| - 1 ==> |r[i]| > 0
  }

  /** `last` is the longest marker-free suffix of `t`. */
  predicate TrailingRun(t: seq<string>, key: string, last: seq<string>)
  {
    key !in last && |last| <= |t| && t[|t| - |last|..] == last
    && (|last| < |t| ==> t[|t| - |last| - 1] == key)
  }

  lemma {:induction false} SplitFromGroupsKeyFree(s: seq<string>, key: string, includeKey: bool, cur: seq<string>)
    requires key !in cur
    ensures KeyOnlyAlone(SplitFrom(s, key, includeKey, cur), key, includeKey)
    decreases |s|
  {
    if s != [] {
      if s[0] == key {
        SplitFromGroupsKeyFree(s[1..], key, includeKey, []);
        var head: seq<seq<string>> := (if |cur| > 0 then [cur] else []) + (if includeKey then [[key]] else []);
        var rest := SplitFrom(s[1..], key, includeKey, []);
        var r := SplitFrom(s, key, includeKey, cur);
        assert r == head + rest;
        forall i | 0 <= i < |r| ensures (includeKey && r[i] == [key]) || key !in r[i] {
          if i >= |head| {
            assert r[i] == rest[i - |head|];
          }
        }
      } else {
        SplitFromGroupsKeyFree(s[1..], key, includeKey, cur + [s[0]]);
      }
    }
  }

  /** A group that holds the marker is the singleton `[key]`, and only when markers are kept. */
  lemma SplitGroupsKeyFree(s: seq<string>, key: string, includeKey: bool)
    ensures KeyOnlyAlone(Split(s, key, includeKey), key, includeKey)
  {
    SplitFromGroupsKeyFree(s, key, includeKey, []);
  }

  lemma {:induction false} SplitFromNonEmptyButLast(s: seq<string>, key: string, includeKey: bool, cur: seq<string>)
    ensures NonEmptyButLast(SplitFrom(s, key, includeKey, cur))
    decreases |s|
  {
    if s != [] {
      if s[0] == key {
        SplitFromNonEmptyButLast(s[1..], key, includeKey, []);
        var head: seq<seq<string>> := (if |cur| > 0 then [cur] else []) + (if includeKey then [[key]] else []);
        var rest := SplitFrom(s[1..], key, includeKey, []);
        var r := SplitFrom(s, key, includeKey, cur);
        assert r == head + rest;
        forall i | 0 <= i < |r| - 1 ensures |r[i]| > 0 {
          if i >= |head| {
            assert r[i] == rest[i - |head|];
          }
        }
      } else {
        SplitFromNonEmptyButLast(s[1..], key, includeKey, cur + [s[0]]);
      }
    }
  }

  /** Every group but the last is non-empty: empty leading and interior runs are dropped. */
  lemma SplitNonEmptyButLast(s: seq<string>, key: string, includeKey: bool)
    ensures NonEmptyButLast(Split(s, key, includeKey))
  {
    SplitFromNonEmptyButLast(s, key, includeKey, []);
  }

  lemma TrailingRunAfterKey(p: seq<string>, key: string, u: seq<string>, last: seq<string>)
    requires TrailingRun(u, key, last)
    ensures TrailingRun(p + [key] + u, key, last)
  {
    var t := p + [key] + u;
    assert t[|t| - |last|..] == u[|u| - |last|..];
    if |last| == |u| {
      assert t[|t| - |last| - 1] == key;
    } else {
      assert t[|t| - |last| - 1] == u[|u| - |last| - 1];
    }
  }

  /** The last group is the maximal marker-free suffix of what is read (`cur + s`). */
  lemma LastRunAtKey(s: seq<string>, key: string, includeKey: bool, cur: seq<string>)
    requires s != [] && s[0] == key
    requires var rest := SplitFrom(s[1..], key, includeKey, []); TrailingRun(s[1..], key, rest[|rest| - 1])
    ensures var r := SplitFrom(s, key, includeKey, cur); TrailingRun(cur + s, key, r[|r| - 1])
  {
    var rest := SplitFrom(s[1..], key, includeKey, []);
    var r := SplitFrom(s, key, includeKey, cur);
    LastGroupAtKey(s, key, includeKey, cur);
    assert cur + [key] + s[1..] == cur + s;
    TrailingRunAfterKey(cur, key, s[1..], rest[|rest| - 1]);
  }

  /** A marker closes the run read so far, so the last group is that of what follows. */
  lemma LastGroupAtKey(s: seq<string>, key: string, includeKey: bool, cur: seq<string>)
    requires s != [] && s[0] == key
    ensures var r := SplitFrom(s, key, includeKey, cur); var rest := SplitFrom(s[1..], key, includeKey, []);
      r[|r| - 1] == rest[|rest| - 1]
  {
    var rest := SplitFrom(s[1..], key, includeKey, []);
    var head: seq<seq<string>> := (if |cur| > 0 then [cur] else []) + (if includeKey then [[key]] else []);
    assert SplitFrom(s, key, includeKey, cur) == head + rest;
    LastOfAppend(head, rest);
  }

  /** The last element of `a + b` is that of `b`. */
  lemma LastOfAppend(a: seq<seq<string>>, b: seq<seq<string>>)
    requires |b| >= 1
    ensures |a + b| >= 1 && (a + b)[|a + b| - 1] == b[|b| - 1]
  {
  }

  lemma {:induction false} SplitFromLastRun(s: seq<string>, key: string, includeKey: bool, cur: seq<string>)
    requires key !in cur
    ensures var r := SplitFrom(s, key, includeKey, cur); TrailingRun(cur + s, key, r[|r| - 1])
    decreases |s|
  {
    if s == [] {
      assert cur + s == cur;
      assert cur[|cur| - |cur|..] == cur;
    } else if s[0] == key {
      SplitFromLastRun(s[1..], key, includeKey, []);
      assert [] + s[1..] == s[1..];
      LastRunAtKey(s, key, includeKey, cur);
    } else {
      SplitFromLastRun(s[1..], key, includeKey, cur + [s[0]]);
      assert (cur + [s[0]]) + s[1..] == cur + s;
    }
  }

  /** The final run is always a group of its own: the marker-free tail after the last
      marker, empty when the input ends with a marker. */
  lemma SplitLastIsTrailingRun(s: seq<string>, key: string, includeKey: bool)
    ensures var r := Split(s, key, includeKey); TrailingRun(s, key, r[|r| - 1])
  {
    SplitFromLastRun(s, key, includeKey, []);
    assert [] + s == s;
  }

  lemma {:induction false} SplitFromKeyCount(s: seq<string>, key: string, cur: seq<string>)
    requires key !in cur
    ensures Count(SplitFrom(s, key, true, cur), [key]) == Count(s, key)
    decreases |s|
  {
    if s == [] {
      assert cur != [key];
      assert Count([cur], [key]) == (if cur == [key] then 1 else 0) + Count([cur][1..], [key]);
    } else if s[0] == key {
      var head: seq<seq<string>> := if |cur| > 0 then [cur] else [];
      var rest := SplitFrom(s[1..], key, true, []);
      SplitFromKeyCount(s[1..], key, []);
      CountAppend(head, [[key]], [key]);
      CountAppend(head + [[key]], rest, [key]);
      assert Count([[key]], [key]) == 1 + Count([[key]][1..], [key]);
      assert Count(head, [key]) == 0 by {
        if |cur| > 0 {
          assert cur != [key];
          assert Count(head, [key]) == 0 + Count(head[1..], [key]);
        }
      }
    } else {
      SplitFromKeyCount(s[1..], key, cur + [s[0]]);
    }
  }

  /** With markers kept, there are exactly as many `[key]` groups as markers in the input. */
  lemma SplitKeyGroupCount(s: seq<string>, key: string)
    ensures Count(Split(s, key, true), [key]) == Count(s, key)
  {
    SplitFromKeyCount(s, key, []);
  }

  lemma {:induction false} SplitFromNoKey(s: seq<string>, key: string, includeKey: bool, cur: seq<string>)
    requires key !in s
    ensures SplitFrom(s, key, includeKey, cur) == [cur + s]
    decreases |s|
  {
    if s == [] {
      assert cur + s == cur;
    } else {
      SplitFromNoKey(s[1..], key, includeKey, cur + [s[0]]);
      assert (cur + [s[0]]) + s[1..] == cur + s;
    }
  }

  /** A run without the marker only extends the group being collected. */
  lemma {:induction false} SplitFromRun(run: seq<string>, rest: seq<string>, key: string, includeKey: bool, cur: seq<string>)
    requires key !in run
    ensures SplitFrom(run + rest, key, includeKey, cur) == SplitFrom(rest, key, includeKey, cur + run)
    decreases |run|
  {
    if run == [] {
      assert run + rest == rest && cur + run == cur;
    } else {
      assert (run + rest)[0] == run[0] && (run + rest)[1..] == run[1..] + rest;
      SplitFromRun(run[1..], rest, key, includeKey, cur + [run[0]]);
      assert (cur + [run[0]]) + run[1..] == cur + run;
    }
  }

  // ---- Where the groups are cut: the runs between markers ----

  /** `s` cut at every marker, empty runs included: run `i` is what stands between
      marker `i` and marker `i + 1` (the start and the end of `s` counting as markers). */
  function Runs(s: seq<string>, key: string): (r: seq<seq<string>>)
    ensures |r| == Count(s, key) + 1
    decreases |s|
  {
    if s == [] then [[]]
    else
      var rest := Runs(s[1..], key);
      if s[0] == key then [[]] + rest else [[s[0]] + rest[0]] + rest[1..]
  }

  /** The runs joined back with one marker between each two of them. */
  function Rejoin(runs: seq<seq<string>>, key: string): (s: seq<string>)
    requires |runs| >= 1
    decreases |runs|
  {
    if |runs| == 1 then runs[0] else runs[0] + [key] + Rejoin(runs[1..], key)
  }

  /** Extending the first run extends the joined list by the same prefix. */
  lemma RejoinExtendFirst(x: seq<string>, runs: seq<seq<string>>, key: string)
    requires |runs| >= 1
    ensures Rejoin([x + runs[0]] + runs[1..], key) == x + Rejoin(runs, key)
  {
    var ext := [x + runs[0]] + runs[1..];
    if |runs| > 1 {
      assert ext[1..] == runs[1..];
    }
  }

  /** The runs hold no marker, and joining them with the marker gives `s` back. */
  lemma RunsCutAtMarkers(s: seq<string>, key: string)
    ensures forall i :: 0 <= i < |Runs(s, key)| ==> key !in Runs(s, key)[i]
    ensures Rejoin(Runs(s, key), key) == s
  {
    RunsKeyFree(s, key);
    RunsRejoin(s, key);
  }

  lemma {:induction false} RunsKeyFree(s: seq<string>, key: string)
    ensures forall i :: 0 <= i < |Runs(s, key)| ==> key !in Runs(s, key)[i]
    decreases |s|
  {
    if s != [] {
      var rest := Runs(s[1..], key);
      RunsKeyFree(s[1..], key);
      var r := Runs(s, key);
      if s[0] == key {
        assert r == [[]] + rest;
        assert forall i :: 1 <= i < |r| ==> r[i] == rest[i - 1];
      } else {
        assert r == [[s[0]] + rest[0]] + rest[1..];
        assert forall i :: 1 <= i < |r| ==> r[i] == rest[i];
      }
    }
  }

  lemma {:induction false} RunsRejoin(s: seq<string>, key: string)
    ensures Rejoin(Runs(s, key), key) == s
    decreases |s|
  {
    if s != [] {
      var rest := Runs(s[1..], key);
      RunsRejoin(s[1..], key);
      if s[0] == key {
        var r: seq<seq<string>> := [[]] + rest;
        assert Runs(s, key) == r;
        assert r[0] == [] && r[1..] == rest;
        assert Rejoin(r, key) == [] + [key] + Rejoin(rest, key);
        assert s == [key] + s[1..];
      } else {
        assert Runs(s, key) == [[s[0]] + rest[0]] + rest[1..];
        RejoinExtendFirst([s[0]], rest, key);
        assert s == [s[0]] + s[1..];
      }
    }
  }

  /** A marker-free run in front only extends the first run. */
  lemma {:induction false} RunsOfRun(run: seq<string>, rest: seq<string>, key: string)
    requires key !in run
    ensures Runs(run + rest, key) == [run + Runs(rest, key)[0]] + Runs(rest, key)[1..]
    decreases |run|
  {
    var rs := Runs(rest, key);
    if run == [] {
      assert run + rest == rest && run + rs[0] == rs[0];
      assert [rs[0]] + rs[1..] == rs;
    } else {
      var t := run[1..] + rest;
      var rt := Runs(t, key);
      calc {
        Runs(run + rest, key);
        { assert run + rest == [run[0]] + t; }
        Runs([run[0]] + t, key);
        { RunsOfToken(run[0], t, key); }
        [[run[0]] + rt[0]] + rt[1..];
        { RunsOfRun(run[1..], rest, key); PrependFirst(run[0], run[1..], rs); }
        [[run[0]] + (run[1..] + rs[0])] + rs[1..];
        { assert [run[0]] + (run[1..] + rs[0]) == run + rs[0]; }
        [run + rs[0]] + rs[1..];
      }
    }
  }

  /** Prepending `x` to the first list of `[y + rs[0]] + rs[1..]`. */
  lemma PrependFirst(x: string, y: seq<string>, rs: seq<seq<string>>)
    requires |rs| >= 1
    ensures var rt := [y + rs[0]] + rs[1..]; [[x] + rt[0]] + rt[1..] == [[x] + (y + rs[0])] + rs[1..]
  {
    var rt := [y + rs[0]] + rs[1..];
    assert rt[0] == y + rs[0] && rt[1..] == rs[1..];
  }

  /** A token other than the marker in front extends the first run. */
  lemma RunsOfToken(x: string, t: seq<string>, key: string)
    requires x != key
    ensures Runs([x] + t, key) == [[x] + Runs(t, key)[0]] + Runs(t, key)[1..]
  {
    assert ([x] + t)[0] == x && ([x] + t)[1..] == t;
  }

  /** The runs are the only cut: marker-free runs joined with the marker are cut back
      into exactly those runs. */
  lemma {:induction false} RunsOfRejoin(runs: seq<seq<string>>, key: string)
    requires |runs| >= 1
    requires forall i :: 0 <= i < |runs| ==> key !in runs[i]
    ensures Runs(Rejoin(runs, key), key) == runs
    decreases |runs|
  {
    if |runs| == 1 {
      RunsOfRun(runs[0], [], key);
      assert runs[0] + [] == runs[0];
      assert Rejoin(runs, key) == runs[0];
      assert [runs[0]] == runs;
    } else {
      var tail := Rejoin(runs[1..], key);
      RunsOfRejoin(runs[1..], key);
      RunsAfterKey(tail, key);
      assert Rejoin(runs, key) == runs[0] + ([key] + tail);
      RunsOfRun(runs[0], [key] + tail, key);
      var rk := Runs([key] + tail, key);
      assert rk == [[]] + runs[1..];
      assert rk[0] == [] && rk[1..] == runs[1..];
      assert runs[0] + [] == runs[0];
      assert [runs[0]] + runs[1..] == runs;
    }
  }

  /** A marker in front starts with an empty run. */
  lemma RunsAfterKey(t: seq<string>, key: string)
    ensures Runs([key] + t, key) == [[]] + Runs(t, key)
  {
    assert ([key] + t)[0] == key && ([key] + t)[1..] == t;
  }

  /** How the loop turns the runs into groups: every run but the last is kept only
      when non-empty and is followed by `[key]` when markers are kept; the last run
      is always kept. */
  function Groups(runs: seq<seq<string>>, key: string, includeKey: bool): (r: seq<seq<string>>)
    requires |runs| >= 1
    ensures |r| >= 1 && r[|r| - 1] == runs[|runs| - 1]
    decreases |runs|
  {
    if |runs| == 1 then [runs[0]]
    else
      (if |runs[0]| > 0 then [runs[0]] else []) + (if includeKey then [[key]] else [])
      + Groups(runs[1..], key, includeKey)
  }

  /** The non-empty lists, in order. */
  function NonEmpty(xss: seq<seq<string>>): (r: seq<seq<string>>)
    ensures |r| <= |xss|
  {
    if xss == [] then []
    else (if |xss[0]| > 0 then [xss[0]] else []) + NonEmpty(xss[1..])
  }

  lemma {:induction false} SplitFromGroups(s: seq<string>, key: string, includeKey: bool, cur: seq<string>)
    ensures SplitFrom(s, key, includeKey, cur)
         == Groups([cur + Runs(s, key)[0]] + Runs(s, key)[1..], key, includeKey)
    decreases |s|
  {
    var rs := Runs(s, key);
    if s == [] {
      assert rs == [[]] && cur + rs[0] == cur;
      assert [cur + rs[0]] + rs[1..] == [cur];
    } else if s[0] == key {
      SplitFromGroups(s[1..], key, includeKey, []);
      SplitFromGroupsAtKey(s, key, includeKey, cur);
    } else {
      var rest := Runs(s[1..], key);
      SplitFromGroups(s[1..], key, includeKey, cur + [s[0]]);
      assert rs == [[s[0]] + rest[0]] + rest[1..];
      assert cur + rs[0] == (cur + [s[0]]) + rest[0];
      assert [cur + rs[0]] + rs[1..] == [(cur + [s[0]]) + rest[0]] + rest[1..];
    }
  }

  /** The step of `SplitFromGroups` at a marker. */
  lemma SplitFromGroupsAtKey(s: seq<string>, key: string, includeKey: bool, cur: seq<string>)
    requires s != [] && s[0] == key
    requires var rest := Runs(s[1..], key);
      SplitFrom(s[1..], key, includeKey, []) == Groups([[] + rest[0]] + rest[1..], key, includeKey)
    ensures SplitFrom(s, key, includeKey, cur)
         == Groups([cur + Runs(s, key)[0]] + Runs(s, key)[1..], key, includeKey)
  {
    var rest := Runs(s[1..], key);
    var rs := Runs(s, key);
    assert [] + rest[0] == rest[0];
    assert [rest[0]] + rest[1..] == rest;
    var ext := [cur + rs[0]] + rs[1..];
    assert rs == [[]] + rest;
    assert rs[0] == [] && rs[1..] == rest && cur + rs[0] == cur;
    assert ext == [cur] + rest && ext[1..] == rest && ext[0] == cur;
    var head: seq<seq<string>> := (if |cur| > 0 then [cur] else []) + (if includeKey then [[key]] else []);
    assert Groups(ext, key, includeKey) == head + Groups(rest, key, includeKey);
  }

  /** The loop's groups are `Groups` of the runs between markers. */
  lemma SplitIsGroupsOfRuns(s: seq<string>, key: string, includeKey: bool)
    ensures Split(s, key, includeKey) == Groups(Runs(s, key), key, includeKey)
  {
    SplitFromGroups(s, key, includeKey, []);
    var rs := Runs(s, key);
    assert [] + rs[0] == rs[0];
    assert [rs[0]] + rs[1..] == rs;
  }

  /** Without the marker, the groups are the non-empty runs before the last marker,
      then the run after it. */
  lemma {:induction false} GroupsWithoutKey(runs: seq<seq<string>>, key: string)
    requires |runs| >= 1
    ensures Groups(runs, key, false) == NonEmpty(runs[..|runs| - 1]) + [runs[|runs| - 1]]
    decreases |runs|
  {
    var n := |runs|;
    if n == 1 {
      assert runs[..0] == [];
      assert NonEmpty([]) == [];
    } else {
      var head: seq<seq<string>> := if |runs[0]| > 0 then [runs[0]] else [];
      var tail := runs[1..];
      GroupsWithoutKey(tail, key);
      assert Groups(runs, key, false) == head + [] + Groups(tail, key, false);
      var front := runs[..n - 1];
      assert front[0] == runs[0] && front[1..] == tail[..n - 2];
      assert NonEmpty(front) == head + NonEmpty(front[1..]);
      assert tail[n - 2] == runs[n - 1];
    }
  }

  /** The groups of `split_tokens_by_key_token(s, key)` are exactly the non-empty runs
      between markers, followed by the final run, whether empty or not. */
  lemma SplitIsNonEmptyRuns(s: seq<string>, key: string)
    ensures var rs := Runs(s, key);
      Split(s, key, false) == NonEmpty(rs[..|rs| - 1]) + [rs[|rs| - 1]]
  {
    SplitIsGroupsOfRuns(s, key, false);
    GroupsWithoutKey(Runs(s, key), key);
  }

  /** A list without the marker is one single group. */
  lemma SplitWithoutKey(s: seq<string>, key: string, includeKey: bool)
    requires key !in s
    ensures Split(s, key, includeKey) == [s]
  {
    SplitFromNoKey(s, key, includeKey, []);
    assert [] + s == s;
  }

  /** Runs before the first marker and between adjacent markers vanish when empty, so
      re-inserting the marker between the groups does not give the input back, while
      a trailing marker leaves a final empty group. */
  lemma SplitExamples()
    ensures Split(["measure", "a", "measure", "b"], "measure", false) == [["a"], ["b"]]
    ensures Split(["measure", "measure", "a"], "measure", true) == [["measure"], ["measure"], ["a"]]
    ensures Split(["a", "measure"], "measure", false) == [["a"], []]
  {
    var m := "measure";
    assert "a" != m && "b" != m;
    var s1: seq<string> := [m, "a", m, "b"];
    assert s1[1..] == ["a", m, "b"] && s1[1..][1..] == [m, "b"] && s1[1..][1..][1..] == ["b"];
    assert ["a", m, "b"][1..] == [m, "b"] && [m, "b"][1..] == ["b"] && ["b"][1..] == [];
    assert [] + ["a"] == ["a"] && [] + ["b"] == ["b"];
    calc {
      Split(s1, m, false);
      SplitFrom(["a", m, "b"], m, false, []);
      SplitFrom([m, "b"], m, false, ["a"]);
      [["a"]] + SplitFrom(["b"], m, false, []);
      [["a"]] + SplitFrom([], m, false, ["b"]);
    }
    var s2: seq<string> := [m, m, "a"];
    assert s2[1..] == [m, "a"] && s2[1..][1..] == ["a"];
    assert [m, "a"][1..] == ["a"] && ["a"][1..] == [] && [] + ["a"] == ["a"];
    calc {
      Split(s2, m, true);
      [[m]] + SplitFrom([m, "a"], m, true, []);
      [[m]] + [[m]] + SplitFrom(["a"], m, true, []);
      [[m]] + [[m]] + SplitFrom([], m, true, ["a"]);
    }
    var s3: seq<string> := ["a", m];
    assert s3[1..] == [m] && [m][1..] == [] && [] + ["a"] == ["a"];
    calc {
      Split(s3, m, false);
      SplitFrom([m], m, false, ["a"]);
      [["a"]] + SplitFrom([], m, false, []);
    }
  }
}
