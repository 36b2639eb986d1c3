/**
 * Literal, global string replacement — what `s.replace(new RegExp(tag, 'g'), v)`
 * does when `tag` holds no regular-expression metacharacter and `v` holds no
 * `$` — and templates seen as fixed pieces of text with slots between them.
 */
module Text {

  /** `pat` occurs in `s` starting at index `i`. */
  predicate OccursAt(pat: string, s: string, i: nat)
  {
    i + |pat| <= |s| && s[i..i + |pat|] == pat
  }

  /** `pat` occurs somewhere in `s`. */
  ghost predicate Occurs(pat: string, s: string)
  {
    exists i: nat :: OccursAt(pat, s, i)
  }

  lemma AppendEmpty(x: string)
    ensures x + "" == x
  {
  }

  /** A prefix followed by the rest of the text is the text. */
  lemma PrefixRest(pre: string, s: string)
    requires pre <= s
    ensures s == pre + s[|pre|..]
  {
  }

  lemma PrefixOfAppend(pre: string, s: string)
    ensures pre <= pre + s
  {
  }

  /** Concatenation regroups freely. */
  lemma AppendAssoc(x: string, y: string, z: string)
    ensures (x + y) + z == x + (y + z)
  {
  }

  /** A character of `pat` that `s` lacks rules out every occurrence of `pat` in `s`. */
  lemma AbsentCharNoOccurrence(pat: string, s: string, c: char)
    requires c in pat && c !in s
    ensures !Occurs(pat, s)
  {
    var k :| 0 <= k < |pat| && pat[k] == c;
    forall i: nat | i + |pat| <= |s|
      ensures !OccursAt(pat, s, i)
    {
      assert s[i..i + |pat|][k] == s[i + k] != c;
    }
  }

  /** Whatever occurs in `s` occurs in any text that embeds `s`. */
  lemma OccursInContext(pat: string, s: string, before: string, after: string)
    requires Occurs(pat, s)
    ensures Occurs(pat, before + s + after)
  {
    var i: nat :| OccursAt(pat, s, i);
    var t := before + s + after;
    assert t[|before| + i..|before| + i + |pat|] == s[i..i + |pat|];
    assert OccursAt(pat, t, |before| + i);
  }

  /** Occurrence is transitive. */
  lemma OccursTransitive(a: string, b: string, c: string)
    requires Occurs(a, b) && Occurs(b, c)
    ensures Occurs(a, c)
  {
    var i: nat :| OccursAt(a, b, i);
    var j: nat :| OccursAt(b, c, j);
    forall k | 0 <= k < |a|
      ensures c[j + i..j + i + |a|][k] == a[k]
    {
      assert c[j..j + |b|][i + k] == b[i + k];
      assert b[i..i + |a|][k] == a[k];
    }
    assert OccursAt(a, c, j + i);
  }

  lemma OccursSelf(s: string)
    ensures Occurs(s, s)
  {
    assert OccursAt(s, s, 0);
  }

  /** Whatever occurs in `s` occurs in `s` followed by more text. */
  lemma OccursBefore(pat: string, s: string, after: string)
    requires Occurs(pat, s)
    ensures Occurs(pat, s + after)
  {
    var i: nat :| OccursAt(pat, s, i);
    assert (s + after)[i..i + |pat|] == s[i..i + |pat|];
    assert OccursAt(pat, s + after, i);
  }

  /** Whatever occurs in `s` occurs in `s` preceded by more text. */
  lemma OccursAfter(pat: string, before: string, s: string)
    requires Occurs(pat, s)
    ensures Occurs(pat, before + s)
  {
    var i: nat :| OccursAt(pat, s, i);
    assert (before + s)[|before| + i..|before| + i + |pat|] == s[i..i + |pat|];
    assert OccursAt(pat, before + s, |before| + i);
  }

  /** The text before the first `c` in `s` (all of `s` when there is none). */
  function UpTo(s: string, c: char): (r: string)
    ensures c !in r && r <= s
  {
    if s == [] || s[0] == c then [] else [s[0]] + UpTo(s[1..], c)
  }

  /** The text after the first `c` in `s` (empty when there is none). */
  function After(s: string, c: char): (r: string)
    ensures |r| < |s| || r == []
  {
    if s == [] then [] else if s[0] == c then s[1..] else After(s[1..], c)
  }

  /** `a`, the separator `c` and `b` are recovered from `a + [c] + b` when `a` lacks `c`. */
  lemma {:induction false} SplitAtFirst(a: string, c: char, b: string)
    requires c !in a
    ensures UpTo(a + [c] + b, c) == a && After(a + [c] + b, c) == b
  {
    var s := a + [c] + b;
    if a != [] {
      assert s[1..] == a[1..] + [c] + b;
      SplitAtFirst(a[1..], c, b);
      assert s[0] == a[0] != c;
      assert a == [a[0]] + a[1..];
    } else {
      assert s == [c] + b;
    }
  }

  /** Scans `s` from the left; each occurrence of `pat` found is replaced by `rep`
      and scanning resumes after it, so the occurrences replaced never overlap.
      Replacing a pattern by itself changes nothing. */
  function ReplaceAll(s: string, pat: string, rep: string): (r: string)
    requires pat != []
    ensures rep == pat ==> r == s
    decreases |s|
  {
    if s == [] then []
    else if OccursAt(pat, s, 0) then
      assert s == s[..|pat|] + s[|pat|..];
      rep + ReplaceAll(s[|pat|..], pat, rep)
    else
      assert s == [s[0]] + s[1..];
      [s[0]] + ReplaceAll(s[1..], pat, rep)
  }

  /** A string in which `pat` does not occur comes back unchanged. */
  lemma {:induction false} ReplaceAllAbsent(s: string, pat: string, rep: string)
    requires pat != [] && !Occurs(pat, s)
    ensures ReplaceAll(s, pat, rep) == s
    decreases |s|
  {
    if s != [] {
      assert !OccursAt(pat, s, 0);
      forall i: nat | i + |pat| <= |s| - 1
        ensures !OccursAt(pat, s[1..], i)
      {
        assert !OccursAt(pat, s, i + 1);
        assert s[1..][i..i + |pat|] == s[i + 1..i + 1 + |pat|];
      }
      ReplaceAllAbsent(s[1..], pat, rep);
      assert s == [s[0]] + s[1..];
    }
  }

  /** The pattern itself is replaced whole. */
  lemma ReplaceAllWhole(pat: string, rep: string)
    requires pat != []
    ensures ReplaceAll(pat, pat, rep) == rep
  {
    assert pat[|pat|..] == [];
  }

  /** Replacing in `a + b` is replacing in each part, when no occurrence of
      `pat` can straddle the join: the character on one side of it is not in `pat`. */
  lemma {:induction false} ReplaceAllSplit(a: string, b: string, pat: string, rep: string)
    requires pat != []
    requires a == [] || b == [] || a[|a| - 1] !in pat || b[0] !in pat
    ensures ReplaceAll(a + b, pat, rep) == ReplaceAll(a, pat, rep) + ReplaceAll(b, pat, rep)
    decreases |a|
  {
    if a == [] {
      assert a + b == b;
    } else if b == [] {
      assert a + b == a;
      assert ReplaceAll(b, pat, rep) == [];
    } else {
      if |pat| > |a| {
        NoStraddle(a, b, pat);
      }
      if OccursAt(pat, a + b, 0) {
        assert |pat| <= |a|;
        assert pat == (a + b)[..|pat|] == a[..|pat|];
        assert (a + b)[|pat|..] == a[|pat|..] + b;
        ReplaceAllSplit(a[|pat|..], b, pat, rep);
      } else {
        assert |pat| <= |a| ==> (a + b)[..|pat|] == a[..|pat|];
        assert (a + b)[1..] == a[1..] + b;
        assert (a + b)[0] == a[0];
        ReplaceAllSplit(a[1..], b, pat, rep);
      }
    }
  }

  /** An occurrence of `pat` at the start of `a + b` that would reach past `a`
      would contain both characters at the join. */
  lemma NoStraddle(a: string, b: string, pat: string)
    requires a != [] && b != [] && |pat| > |a|
    requires a[|a| - 1] !in pat || b[0] !in pat
    ensures !OccursAt(pat, a + b, 0)
  {
    if |pat| <= |a + b| {
      var w := (a + b)[..|pat|];
      assert w[|a| - 1] == a[|a| - 1] && w[|a|] == b[0];
      assert a[|a| - 1] in w && b[0] in w;
    }
  }

  /** A template: `pieces[0] + slots[0] + pieces[1] + ... + slots[n-1] + pieces[n]`. */
  function Fill(pieces: seq<string>, slots: seq<string>): (r: string)
    requires |pieces| == |slots| + 1
    decreases |slots|
  {
    if slots == [] then pieces[0]
    else pieces[0] + (slots[0] + Fill(pieces[1..], slots[1..]))
  }

  /** Unfolding a template from its `k`-th piece on. */
  lemma FillFrom(pieces: seq<string>, slots: seq<string>, k: nat)
    requires |pieces| == |slots| + 1 && k < |slots|
    ensures Fill(pieces[k..], slots[k..])
         == pieces[k] + (slots[k] + Fill(pieces[k + 1..], slots[k + 1..]))
  {
    assert pieces[k..][1..] == pieces[k + 1..];
    assert slots[k..][1..] == slots[k + 1..];
  }

  /** Every piece is non-empty, and the characters of the pieces that border a
      slot are not in `pat`; no occurrence of `pat` can then straddle a border. */
  predicate Separated(pieces: seq<string>, pat: string)
  {
    forall i :: 0 <= i < |pieces| ==>
      && pieces[i] != []
      && (0 < i ==> pieces[i][0] !in pat)
      && (i < |pieces| - 1 ==> pieces[i][|pieces[i]| - 1] !in pat)
  }

  /** `ReplaceAll` applied slot by slot. */
  function ReplaceInSlots(slots: seq<string>, pat: string, rep: string): seq<string>
    requires pat != []
  {
    seq(|slots|, i requires 0 <= i < |slots| => ReplaceAll(slots[i], pat, rep))
  }

  /** Replacing in a filled template leaves its pieces as they are and replaces
      inside each slot separately. */
  lemma {:induction false} ReplaceAllFill(pieces: seq<string>, slots: seq<string>, pat: string, rep: string)
    requires pat != [] && |pieces| == |slots| + 1
    requires Separated(pieces, pat)
    requires forall i :: 0 <= i < |pieces| ==> !Occurs(pat, pieces[i])
    ensures ReplaceAll(Fill(pieces, slots), pat, rep) == Fill(pieces, ReplaceInSlots(slots, pat, rep))
    decreases |slots|
  {
    ReplaceAllAbsent(pieces[0], pat, rep);
    if slots != [] {
      var tail := Fill(pieces[1..], slots[1..]);
      assert pieces[1] <= tail;
      ReplaceAllSplit(slots[0], tail, pat, rep);
      ReplaceAllSplit(pieces[0], slots[0] + tail, pat, rep);
      ReplaceAllFill(pieces[1..], slots[1..], pat, rep);
      assert ReplaceInSlots(slots, pat, rep)[1..] == ReplaceInSlots(slots[1..], pat, rep);
    }
  }

  /** The patterns are non-empty and the replacements as many. */
  predicate Table(pats: seq<string>, reps: seq<string>)
  {
    |pats| == |reps| && forall i :: 0 <= i < |pats| ==> pats[i] != []
  }

  /** `s.replace(pats[0], reps[0]).replace(pats[1], reps[1])...`, in that order.
      Replacing every pattern by itself changes nothing. */
  function ReplaceEach(s: string, pats: seq<string>, reps: seq<string>): (r: string)
    requires Table(pats, reps)
    ensures reps == pats ==> r == s
    decreases |pats|
  {
    if pats == [] then s
    else ReplaceEach(ReplaceAll(s, pats[0], reps[0]), pats[1..], reps[1..])
  }

  /** A string in which none of the patterns occurs comes through every step unchanged. */
  lemma {:induction false} ReplaceEachAbsent(s: string, pats: seq<string>, reps: seq<string>)
    requires Table(pats, reps)
    requires forall i :: 0 <= i < |pats| ==> !Occurs(pats[i], s)
    ensures ReplaceEach(s, pats, reps) == s
    decreases |pats|
  {
    if pats != [] {
      ReplaceAllAbsent(s, pats[0], reps[0]);
      ReplaceEachAbsent(s, pats[1..], reps[1..]);
    }
  }

  /** A prefix holding no occurrence of `pat`, and whose last character is not
      in `pat`, is kept by the replacement. */
  lemma ReplaceAllPrefix(pre: string, s: string, pat: string, rep: string)
    requires pat != [] && !Occurs(pat, pre)
    requires pre == [] || pre[|pre| - 1] !in pat
    ensures ReplaceAll(pre + s, pat, rep) == pre + ReplaceAll(s, pat, rep)
  {
    ReplaceAllSplit(pre, s, pat, rep);
    ReplaceAllAbsent(pre, pat, rep);
  }

  /** Such a prefix, for every pattern, comes through the whole chain untouched. */
  lemma {:induction false} ReplaceEachPrefix(pre: string, s: string, pats: seq<string>, reps: seq<string>)
    requires Table(pats, reps)
    requires forall i :: 0 <= i < |pats| ==> !Occurs(pats[i], pre) && (pre == [] || pre[|pre| - 1] !in pats[i])
    ensures ReplaceEach(pre + s, pats, reps) == pre + ReplaceEach(s, pats, reps)
    decreases |pats|
  {
    if pats != [] {
      ReplaceAllPrefix(pre, s, pats[0], reps[0]);
      ReplaceEachPrefix(pre, ReplaceAll(s, pats[0], reps[0]), pats[1..], reps[1..]);
    }
  }

  /** No pattern occurs in another one (nor in any replacement). */
  ghost predicate Disjoint(pats: seq<string>, reps: seq<string>)
    requires |pats| == |reps|
  {
    && (forall i, j :: 0 <= i < |pats| && 0 <= j < |pats| && i != j ==> !Occurs(pats[i], pats[j]))
    && (forall i, j :: 0 <= i < |pats| && 0 <= j < |reps| ==> !Occurs(pats[i], reps[j]))
  }

  /** Each pattern, on its own, turns into its own replacement. */
  lemma {:induction false} ReplaceEachPattern(pats: seq<string>, reps: seq<string>, j: nat)
    requires Table(pats, reps) && Disjoint(pats, reps) && j < |pats|
    ensures ReplaceEach(pats[j], pats, reps) == reps[j]
    decreases j
  {
    if j == 0 {
      ReplaceAllWhole(pats[0], reps[0]);
      ReplaceEachAbsent(reps[0], pats[1..], reps[1..]);
    } else {
      ReplaceAllAbsent(pats[j], pats[0], reps[0]);
      ReplaceEachPattern(pats[1..], reps[1..], j - 1);
    }
  }

  /** `ReplaceEach` applied slot by slot. */
  function ReplaceEachInSlots(slots: seq<string>, pats: seq<string>, reps: seq<string>): seq<string>
    requires Table(pats, reps)
  {
    seq(|slots|, i requires 0 <= i < |slots| => ReplaceEach(slots[i], pats, reps))
  }

  /** The pieces bound every pattern and contain none. */
  ghost predicate Frames(pieces: seq<string>, pats: seq<string>)
  {
    forall k :: 0 <= k < |pats| ==>
      Separated(pieces, pats[k]) && forall i :: 0 <= i < |pieces| ==> !Occurs(pats[k], pieces[i])
  }

  /** Running the whole chain over a filled template works slot by slot. */
  lemma {:induction false} ReplaceEachFill(pieces: seq<string>, slots: seq<string>, pats: seq<string>, reps: seq<string>)
    requires Table(pats, reps) && |pieces| == |slots| + 1
    requires Frames(pieces, pats)
    ensures ReplaceEach(Fill(pieces, slots), pats, reps) == Fill(pieces, ReplaceEachInSlots(slots, pats, reps))
    decreases |pats|
  {
    if pats != [] {
      var once := ReplaceInSlots(slots, pats[0], reps[0]);
      ReplaceAllFill(pieces, slots, pats[0], reps[0]);
      assert Frames(pieces, pats[1..]) by {
        forall k | 0 <= k < |pats| - 1
          ensures Separated(pieces, pats[1..][k])
          ensures forall i :: 0 <= i < |pieces| ==> !Occurs(pats[1..][k], pieces[i])
        {
          assert pats[1..][k] == pats[k + 1];
        }
      }
      ReplaceEachFill(pieces, once, pats[1..], reps[1..]);
      forall i | 0 <= i < |slots|
        ensures ReplaceEachInSlots(once, pats[1..], reps[1..])[i] == ReplaceEachInSlots(slots, pats, reps)[i]
      {
      }
      assert ReplaceEachInSlots(once, pats[1..], reps[1..]) == ReplaceEachInSlots(slots, pats, reps);
    } else {
      assert ReplaceEachInSlots(slots, pats, reps) == slots;
    }
  }

  /** A template whose slots hold the patterns, in order, comes out with each
      slot holding the matching replacement and every piece untouched. */
  lemma FillPatterns(pieces: seq<string>, pats: seq<string>, reps: seq<string>)
    requires Table(pats, reps) && |pieces| == |pats| + 1
    requires Frames(pieces, pats) && Disjoint(pats, reps)
    ensures ReplaceEach(Fill(pieces, pats), pats, reps) == Fill(pieces, reps)
  {
    ReplaceEachFill(pieces, pats, pats, reps);
    forall j | 0 <= j < |pats|
      ensures ReplaceEachInSlots(pats, pats, reps)[j] == reps[j]
    {
      ReplaceEachPattern(pats, reps, j);
    }
    assert ReplaceEachInSlots(pats, pats, reps) == reps;
  }

  /** Once filled with replacements, the template is a fixed point of the chain. */
  lemma FillReplacementsStable(pieces: seq<string>, pats: seq<string>, reps: seq<string>)
    requires Table(pats, reps) && |pieces| == |pats| + 1
    requires Frames(pieces, pats) && Disjoint(pats, reps)
    ensures ReplaceEach(Fill(pieces, reps), pats, reps) == Fill(pieces, reps)
  {
    ReplaceEachFill(pieces, reps, pats, reps);
    forall j | 0 <= j < |reps|
      ensures ReplaceEachInSlots(reps, pats, reps)[j] == reps[j]
    {
      ReplaceEachAbsent(reps[j], pats, reps);
    }
    assert ReplaceEachInSlots(reps, pats, reps) == reps;
  }

  /** Every slot value occurs in the filled template. */
  lemma {:induction false} FillHasSlot(pieces: seq<string>, slots: seq<string>, j: nat)
    requires |pieces| == |slots| + 1 && j < |slots|
    ensures Occurs(slots[j], Fill(pieces, slots))
    decreases j
  {
    var tail := Fill(pieces[1..], slots[1..]);
    if j == 0 {
      OccursSelf(slots[0]);
      OccursInContext(slots[0], slots[0], pieces[0], tail);
      assert pieces[0] + slots[0] + tail == Fill(pieces, slots);
    } else {
      FillHasSlot(pieces[1..], slots[1..], j - 1);
      OccursInContext(slots[j], tail, pieces[0] + slots[0], []);
      assert pieces[0] + slots[0] + tail + [] == Fill(pieces, slots);
    }
  }

  /** The parts written one after the other, as a `forEach` appending each
      part to an accumulator produces them. */
  function Concat(parts: seq<string>): string
    decreases |parts|
  {
    if parts == [] then "" else Concat(parts[..|parts| - 1]) + parts[|parts| - 1]
  }

  /** Writing two lists of parts is writing the first, then the second. */
  lemma {:induction false} ConcatAppend(a: seq<string>, b: seq<string>)
    ensures Concat(a + b) == Concat(a) + Concat(b)
    decreases |b|
  {
    if b == [] {
      assert a + b == a;
    } else {
      var b', last := b[..|b| - 1], b[|b| - 1];
      assert (a + b)[..|a + b| - 1] == a + b';
      assert (a + b)[|a + b| - 1] == last;
      ConcatAppend(a, b');
      AppendAssoc(Concat(a), Concat(b'), last);
    }
  }

  /** Appending one more part. */
  lemma ConcatSnoc(parts: seq<string>, i: nat)
    requires i < |parts|
    ensures Concat(parts[..i + 1]) == Concat(parts[..i]) + parts[i]
  {
    assert parts[..i + 1][..i] == parts[..i];
  }

  /** One more part appended to a text built as `head` followed by a prefix of
      the parts. */
  lemma ConcatExtend(head: string, parts: seq<string>, i: nat)
    requires i < |parts|
    ensures head + Concat(parts[..i]) + parts[i] == head + Concat(parts[..i + 1])
  {
    ConcatSnoc(parts, i);
    AppendAssoc(head, Concat(parts[..i]), parts[i]);
  }

  /** The prefix as long as the whole sequence is the whole sequence. */
  lemma ConcatAll(parts: seq<string>)
    ensures Concat(parts[..|parts|]) == Concat(parts)
  {
    assert parts[..|parts|] == parts;
  }

  /** Part `i` comes right after the parts before it and right before those after it. */
  lemma ConcatAt(parts: seq<string>, i: nat)
    requires i < |parts|
    ensures Concat(parts) == Concat(parts[..i]) + parts[i] + Concat(parts[i + 1..])
  {
    var front, back := parts[..i + 1], parts[i + 1..];
    assert parts == front + back;
    ConcatAppend(front, back);
    ConcatSnoc(parts, i);
  }

  /** Every part occurs in the concatenation. */
  lemma ConcatHas(parts: seq<string>, i: nat)
    requires i < |parts|
    ensures Occurs(parts[i], Concat(parts))
  {
    ConcatAt(parts, i);
    OccursSelf(parts[i]);
    OccursInContext(parts[i], parts[i], Concat(parts[..i]), Concat(parts[i + 1..]));
  }
}
