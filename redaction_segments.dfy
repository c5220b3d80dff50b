/** A reference description of the redaction, independent of the scan.

    When the separator is neither a word character nor `=`, no key `f=`
    spans a separator, and a value run always ends at a separator. The
    message then falls apart into separator-free segments, and within each
    segment the substitution of field `f` keeps everything up to the first
    key and replaces the rest of the segment by the redaction. This module
    proves that description equal to the scan, and from it that the
    redaction is idempotent. */
module RedactionSegments {
  import opened Wrappers
  import opened FilteredLogger

  /** A separator under which the segment description is valid. */
  predicate IsPlainSeparator(sep: char) {
    !IsWordChar(sep) && sep != '=' && sep != '\\'
  }

  // ---------------------------------------------------------------------
  // Splitting at separators

  function Split(m: string, sep: char): (segs: seq<string>)
    ensures |segs| >= 1
    decreases |m|
  {
    var j := RunEnd(m, sep, 0);
    if j == |m| then [m] else [m[..j]] + Split(m[j + 1..], sep)
  }

  function Join(segs: seq<string>, sep: char): string
    requires |segs| >= 1
    decreases |segs|
  {
    if |segs| == 1 then segs[0] else segs[0] + [sep] + Join(segs[1..], sep)
  }

  /** The pieces of a split hold no separator. */
  lemma {:induction false} SplitNoSep(m: string, sep: char)
    ensures forall i :: 0 <= i < |Split(m, sep)| ==> sep !in Split(m, sep)[i]
    decreases |m|
  {
    var j := RunEnd(m, sep, 0);
    if j < |m| {
      SplitNoSep(m[j + 1..], sep);
      assert sep !in m[..j];
    }
  }

  /** `RunEnd` is determined by its contract. */
  lemma RunEndIs(m: string, sep: char, p: nat, j: nat)
    requires p <= j <= |m|
    requires forall k :: p <= k < j ==> m[k] != sep
    requires j == |m| || m[j] == sep
    ensures RunEnd(m, sep, p) == j
  {
  }

  /** Splitting a joined list of separator-free segments gives them back. */
  lemma {:induction false} SplitJoin(segs: seq<string>, sep: char)
    requires |segs| >= 1
    requires forall i :: 0 <= i < |segs| ==> sep !in segs[i]
    ensures Split(Join(segs, sep), sep) == segs
    decreases |segs|
  {
    var m := Join(segs, sep);
    var a := segs[0];
    if |segs| == 1 {
      RunEndIs(m, sep, 0, |m|);
    } else {
      var rest := Join(segs[1..], sep);
      assert m == a + [sep] + rest;
      assert forall k :: 0 <= k < |a| ==> m[k] == a[k];
      RunEndIs(m, sep, 0, |a|);
      assert m[..|a|] == a;
      assert m[|a| + 1..] == rest;
      assert Split(m, sep) == [a] + Split(rest, sep);
      SplitJoin(segs[1..], sep);
      assert segs == [a] + segs[1..];
    }
  }

  // ---------------------------------------------------------------------
  // The reference: one segment at a time

  /** The first marked position of `keys` at or after `p`. */
  function FirstKeyFrom(keys: seq<bool>, p: nat): (r: Option<nat>)
    requires p <= |keys|
    ensures r.Some? ==> p <= r.value < |keys| && keys[r.value]
    ensures r.Some? ==> forall k :: p <= k < r.value ==> !keys[k]
    ensures r.None? ==> forall k :: p <= k < |keys| ==> !keys[k]
    decreases |keys| - p
  {
    if p == |keys| then None
    else if keys[p] then Some(p)
    else FirstKeyFrom(keys, p + 1)
  }

  /** `FirstKeyFrom` is determined by its contract. */
  lemma FirstKeyIs(keys: seq<bool>, p: nat, k: nat)
    requires p <= k < |keys| && keys[k]
    requires forall t :: p <= t < k ==> !keys[t]
    ensures FirstKeyFrom(keys, p) == Some(k)
  {
  }

  /** What redaction makes of the segment `s`, whose key positions are
      `keys`, from position `i` on: the text up to the first key, then `red`
      in place of the rest of the segment. */
  function SegmentFrom(s: string, keys: seq<bool>, red: string, i: nat): string
    requires |keys| == |s| + 1 && i <= |s|
  {
    match FirstKeyFrom(keys, i)
    case Some(k) => s[i..k] + red
    case None => s[i..]
  }

  /** Redaction of field `f` in one separator-free segment. */
  function RedactSegment(s: string, f: string, red: string): string {
    SegmentFrom(s, Keys(s, f), red, 0)
  }

  /** Redaction of every field of `fields`, in order, in one segment. */
  function RedactSegmentAll(fields: seq<string>, red: string, s: string): string
    decreases |fields|
  {
    if fields == [] then s
    else RedactSegment(RedactSegmentAll(fields[..|fields| - 1], red, s), fields[|fields| - 1], red)
  }

  function MapRedact(segs: seq<string>, fields: seq<string>, red: string): (r: seq<string>)
    ensures |r| == |segs|
  {
    seq(|segs|, i requires 0 <= i < |segs| => RedactSegmentAll(fields, red, segs[i]))
  }

  /** A separator-free segment stays separator-free. */
  lemma {:induction false} RedactSegmentAllNoSep(fields: seq<string>, red: string, s: string, sep: char)
    requires sep !in s && sep !in red
    ensures sep !in RedactSegmentAll(fields, red, s)
    decreases |fields|
  {
    if fields != [] {
      var t := RedactSegmentAll(fields[..|fields| - 1], red, s);
      RedactSegmentAllNoSep(fields[..|fields| - 1], red, s, sep);
      var f := fields[|fields| - 1];
      match FirstKeyFrom(Keys(t, f), 0)
      case Some(k) =>
        assert forall i :: 0 <= i < k ==> t[..k][i] == t[i];
      case None =>
        assert t[0..] == t;
    }
  }

  // ---------------------------------------------------------------------
  // The scan agrees with the reference

  /** After a separator, keys are seen the same way in the rest of the
      message as in the whole: a key cannot reach back over a separator. */
  lemma KeyAtSuffix(m: string, f: string, sep: char, a: nat, q: nat)
    requires IsFieldName(f) && IsPlainSeparator(sep)
    requires 1 <= a <= q <= |m| && m[a - 1] == sep
    ensures KeyAt(m, f, q) == KeyAt(m[a..], f, q - a)
  {
    var s := q - |f| - 1;
    if a <= s {
      assert m[s..q] == m[a..][s - a..q - a];
      if a < s {
        assert m[s - 1] == m[a..][s - a - 1];
      }
    } else if 0 <= s {
      assert m[a - 1] == sep && !IsWordChar(sep) && sep != '=';
    }
  }

  /** Inside the segment `m[a..j]` that starts after a separator (or at the
      start of `m`), keys are seen as in the segment on its own. */
  lemma KeyAtSegment(m: string, f: string, sep: char, a: nat, j: nat, q: nat)
    requires IsFieldName(f) && IsPlainSeparator(sep)
    requires a <= q <= j <= |m| && (a == 0 || m[a - 1] == sep)
    ensures KeyAt(m, f, q) == KeyAt(m[a..j], f, q - a)
  {
    KeyAtPrefix(m, f, q, j);
    if a == 0 {
      assert m[a..j] == m[..j];
    } else {
      KeyAtSuffix(m[..j], f, sep, a, q);
      assert m[..j][a..] == m[a..j];
    }
  }

  /** What the scan makes of the message after a segment ending at `j`. */
  function AfterSegment(m: string, keys: seq<bool>, red: string, sep: char, j: nat): string
    requires |keys| == |m| + 1 && j <= |m|
  {
    if j == |m| then [] else [sep] + Scan(m, keys, red, sep, j + 1)
  }

  lemma SegmentFromStep(s: string, keys: seq<bool>, red: string, i: nat)
    requires |keys| == |s| + 1 && i <= |s|
    ensures keys[i] ==> SegmentFrom(s, keys, red, i) == red
    ensures !keys[i] && i < |s| ==>
      SegmentFrom(s, keys, red, i) == [s[i]] + SegmentFrom(s, keys, red, i + 1)
    ensures !keys[i] && i == |s| ==> SegmentFrom(s, keys, red, i) == []
  {
    if keys[i] {
      assert FirstKeyFrom(keys, i) == Some(i);
      assert s[i..i] == [];
    } else if i < |s| {
      assert FirstKeyFrom(keys, i) == FirstKeyFrom(keys, i + 1);
      match FirstKeyFrom(keys, i + 1)
      case Some(k) =>
        assert s[i..k] == [s[i]] + s[i + 1..k];
        ConsAppend(s[i], s[i + 1..k], red);
      case None =>
        assert s[i..] == [s[i]] + s[i + 1..];
    } else {
      assert FirstKeyFrom(keys, i) == None;
    }
  }

  /** The scan through the segment `m[a..j]`, whose key positions `segKeys`
      agree with the message's, from `q` on: up to the first key of the
      segment it copies, from there to the end of the segment it writes
      `red`, then it copies the separator and goes on. */
  lemma {:induction false} ScanSegment(m: string, keys: seq<bool>, segKeys: seq<bool>, red: string,
                                       sep: char, a: nat, j: nat, q: nat)
    requires |keys| == |m| + 1 && a <= q <= j <= |m| && j == RunEnd(m, sep, a)
    requires segKeys == keys[a..j + 1]
    ensures Scan(m, keys, red, sep, q) ==
      SegmentFrom(m[a..j], segKeys, red, q - a) + AfterSegment(m, keys, red, sep, j)
    decreases j - q
  {
    assert keys[q] == segKeys[q - a];
    if !keys[q] && q < j {
      ScanSegment(m, keys, segKeys, red, sep, a, j, q + 1);
      assert keys[q + 1] == segKeys[q + 1 - a];
    }
    ScanSegmentStep(m, keys, segKeys, red, sep, a, j, q);
  }

  lemma ScanSegmentStep(m: string, keys: seq<bool>, segKeys: seq<bool>, red: string,
                        sep: char, a: nat, j: nat, q: nat)
    requires |keys| == |m| + 1 && a <= q <= j <= |m| && j == RunEnd(m, sep, a)
    requires |segKeys| == j - a + 1 && keys[q] == segKeys[q - a]
    requires !keys[q] && q < j ==> keys[q + 1] == segKeys[q + 1 - a]
    requires !keys[q] && q < j ==>
      Scan(m, keys, red, sep, q + 1) ==
      SegmentFrom(m[a..j], segKeys, red, q + 1 - a) + AfterSegment(m, keys, red, sep, j)
    ensures Scan(m, keys, red, sep, q) ==
      SegmentFrom(m[a..j], segKeys, red, q - a) + AfterSegment(m, keys, red, sep, j)
  {
    if keys[q] {
      ScanSegmentAtKey(m, keys, segKeys, red, sep, a, j, q);
    } else if q < j {
      ScanSegmentCopy(m, keys, m[a..j], segKeys, red, sep, a, j, q);
    } else {
      ScanSegmentEnd(m, keys, segKeys, red, sep, a, j);
    }
  }

  lemma ScanSegmentAtKey(m: string, keys: seq<bool>, segKeys: seq<bool>, red: string,
                         sep: char, a: nat, j: nat, q: nat)
    requires |keys| == |m| + 1 && a <= q <= j <= |m| && j == RunEnd(m, sep, a)
    requires |segKeys| == j - a + 1 && keys[q] && segKeys[q - a]
    ensures Scan(m, keys, red, sep, q) ==
      SegmentFrom(m[a..j], segKeys, red, q - a) + AfterSegment(m, keys, red, sep, j)
  {
    SegmentFromStep(m[a..j], segKeys, red, q - a);
    RunEndIs(m, sep, q, j);
    ScanAtKey(m, keys, red, sep, q, j);
    if j == |m| {
      assert AfterSegment(m, keys, red, sep, j) == [];
      assert red + [] == red;
    } else {
      assert m[j] == sep;
      assert AfterSegment(m, keys, red, sep, j) == [sep] + Scan(m, keys, red, sep, j + 1);
    }
  }

  lemma ScanSegmentCopy(m: string, keys: seq<bool>, s: string, segKeys: seq<bool>, red: string,
                        sep: char, a: nat, j: nat, q: nat)
    requires |keys| == |m| + 1 && a <= q < j <= |m| && |s| == j - a && s[q - a] == m[q]
    requires |segKeys| == j - a + 1 && !keys[q] && !segKeys[q - a]
    requires Scan(m, keys, red, sep, q + 1) ==
      SegmentFrom(s, segKeys, red, q + 1 - a) + AfterSegment(m, keys, red, sep, j)
    ensures Scan(m, keys, red, sep, q) ==
      SegmentFrom(s, segKeys, red, q - a) + AfterSegment(m, keys, red, sep, j)
  {
    var x := SegmentFrom(s, segKeys, red, q + 1 - a);
    var rest := AfterSegment(m, keys, red, sep, j);
    SegmentFromStep(s, segKeys, red, q - a);
    ScanCopy(m, keys, red, sep, q);
    ConsAppend(m[q], x, rest);
  }

  lemma ConsAppend<T>(c: T, x: seq<T>, r: seq<T>)
    ensures [c] + (x + r) == ([c] + x) + r
  {
  }

  lemma ScanSegmentEnd(m: string, keys: seq<bool>, segKeys: seq<bool>, red: string,
                       sep: char, a: nat, j: nat)
    requires |keys| == |m| + 1 && a <= j <= |m| && j == RunEnd(m, sep, a)
    requires |segKeys| == j - a + 1 && !keys[j] && !segKeys[j - a]
    ensures Scan(m, keys, red, sep, j) ==
      SegmentFrom(m[a..j], segKeys, red, j - a) + AfterSegment(m, keys, red, sep, j)
  {
    SegmentFromStep(m[a..j], segKeys, red, j - a);
    if j < |m| {
      ScanCopy(m, keys, red, sep, j);
    }
  }

  /** The key positions inside a segment are those of the segment alone. */
  lemma SegmentKeys(m: string, f: string, sep: char, a: nat, j: nat)
    requires IsFieldName(f) && IsPlainSeparator(sep)
    requires a <= j <= |m| && (a == 0 || m[a - 1] == sep)
    ensures forall t :: a <= t <= j ==> Keys(m, f)[t] == Keys(m[a..j], f)[t - a]
  {
    KeysMeaning(m, f);
    KeysMeaning(m[a..j], f);
    forall t | a <= t <= j
      ensures Keys(m, f)[t] == Keys(m[a..j], f)[t - a]
    {
      KeyAtSegment(m, f, sep, a, j, t);
    }
  }

  /** Splitting from a segment start peels off that segment. */
  lemma SplitFrom(m: string, sep: char, a: nat, j: nat)
    requires a <= |m| && j == RunEnd(m, sep, a)
    ensures j == |m| ==> Split(m[a..], sep) == [m[a..j]]
    ensures j < |m| ==> Split(m[a..], sep) == [m[a..j]] + Split(m[j + 1..], sep)
  {
    var rest := m[a..];
    RunEndIs(rest, sep, 0, j - a);
    assert rest[..j - a] == m[a..j];
    if j < |m| {
      assert rest[j - a + 1..] == m[j + 1..];
      assert Split(rest, sep) == [rest[..j - a]] + Split(rest[j - a + 1..], sep);
    } else {
      assert rest == m[a..j];
    }
  }

  /** Joining the redacted segments, the first one peeled off. */
  lemma JoinMapRedactCons(s: string, tail: seq<string>, fields: seq<string>, red: string, sep: char)
    ensures tail == [] ==> Join(MapRedact([s] + tail, fields, red), sep) == RedactSegmentAll(fields, red, s)
    ensures tail != [] ==>
      Join(MapRedact([s] + tail, fields, red), sep) ==
      RedactSegmentAll(fields, red, s) + ([sep] + Join(MapRedact(tail, fields, red), sep))
  {
    var r := MapRedact([s] + tail, fields, red);
    assert r[1..] == MapRedact(tail, fields, red);
  }

  lemma RedactSegmentAllOne(f: string, red: string, s: string)
    ensures RedactSegmentAll([f], red, s) == RedactSegment(s, f, red)
  {
    assert [f][..0] == [];
  }

  /** The scan through the segment that starts at `a` and ends at `j`. */
  lemma FirstSegment(f: string, red: string, m: string, sep: char, a: nat, j: nat)
    requires IsFieldName(f) && IsPlainSeparator(sep)
    requires a <= |m| && (a == 0 || m[a - 1] == sep) && j == RunEnd(m, sep, a)
    ensures Scan(m, Keys(m, f), red, sep, a) ==
      RedactSegment(m[a..j], f, red) + AfterSegment(m, Keys(m, f), red, sep, j)
  {
    SegmentKeys(m, f, sep, a, j);
    assert Keys(m[a..j], f) == Keys(m, f)[a..j + 1];
    ScanSegment(m, Keys(m, f), Keys(m[a..j], f), red, sep, a, j, a);
  }

  /** From a segment start on, the scan is the segment-wise redaction of
      the rest of the message. */
  lemma {:induction false} ScanBySegments(f: string, red: string, m: string, sep: char, a: nat)
    requires IsFieldName(f) && IsPlainSeparator(sep)
    requires a <= |m| && (a == 0 || m[a - 1] == sep)
    ensures Scan(m, Keys(m, f), red, sep, a) == Join(MapRedact(Split(m[a..], sep), [f], red), sep)
    decreases |m| - a
  {
    var j := RunEnd(m, sep, a);
    if j == |m| {
      LastSegment(f, red, m, sep, a, j);
    } else {
      ScanBySegments(f, red, m, sep, j + 1);
      NextSegment(f, red, m, sep, a, j);
    }
  }

  lemma LastSegment(f: string, red: string, m: string, sep: char, a: nat, j: nat)
    requires IsFieldName(f) && IsPlainSeparator(sep)
    requires a <= |m| && (a == 0 || m[a - 1] == sep) && j == RunEnd(m, sep, a) && j == |m|
    ensures Scan(m, Keys(m, f), red, sep, a) == Join(MapRedact(Split(m[a..], sep), [f], red), sep)
  {
    var s := m[a..j];
    FirstSegment(f, red, m, sep, a, j);
    RedactSegmentAllOne(f, red, s);
    SplitFrom(m, sep, a, j);
    JoinMapRedactCons(s, [], [f], red, sep);
    assert [s] + [] == [s];
  }

  lemma NextSegment(f: string, red: string, m: string, sep: char, a: nat, j: nat)
    requires IsFieldName(f) && IsPlainSeparator(sep)
    requires a <= |m| && (a == 0 || m[a - 1] == sep) && j == RunEnd(m, sep, a) && j < |m|
    requires Scan(m, Keys(m, f), red, sep, j + 1) ==
      Join(MapRedact(Split(m[j + 1..], sep), [f], red), sep)
    ensures Scan(m, Keys(m, f), red, sep, a) == Join(MapRedact(Split(m[a..], sep), [f], red), sep)
  {
    var s := m[a..j];
    var keys := Keys(m, f);
    var tail := Split(m[j + 1..], sep);
    calc {
      Scan(m, keys, red, sep, a);
      { FirstSegment(f, red, m, sep, a, j); }
      RedactSegment(s, f, red) + AfterSegment(m, keys, red, sep, j);
      RedactSegment(s, f, red) + ([sep] + Scan(m, keys, red, sep, j + 1));
      { RedactSegmentAllOne(f, red, s); }
      RedactSegmentAll([f], red, s) + ([sep] + Join(MapRedact(tail, [f], red), sep));
      { JoinMapRedactCons(s, tail, [f], red, sep); }
      Join(MapRedact([s] + tail, [f], red), sep);
      { SplitFrom(m, sep, a, j); }
      Join(MapRedact(Split(m[a..], sep), [f], red), sep);
    }
  }

  /** The substitution of one field is the segment-wise redaction. */
  lemma SubBySegments(f: string, red: string, m: string, sep: char)
    requires IsFieldName(f) && IsPlainSeparator(sep)
    ensures Sub(f, red, m, sep) == Join(MapRedact(Split(m, sep), [f], red), sep)
  {
    ScanBySegments(f, red, m, sep, 0);
    assert m[0..] == m;
  }

  /** The whole of `filter_datum` is the segment-wise redaction by all
      fields, provided the redaction holds no separator. */
  lemma {:induction false} RedactBySegments(fields: seq<string>, red: string, m: string, sep: char)
    requires AreFieldNames(fields) && IsPlainSeparator(sep) && sep !in red
    ensures Redact(fields, red, m, sep) == Join(MapRedact(Split(m, sep), fields, red), sep)
    decreases |fields|
  {
    var segs := Split(m, sep);
    if fields == [] {
      JoinSplit(m, sep);
      assert MapRedact(segs, fields, red) == segs;
    } else {
      var n := |fields| - 1;
      var init := fields[..n];
      var f := fields[n];
      RedactBySegments(init, red, m, sep);
      var mid := MapRedact(segs, init, red);
      SplitNoSep(m, sep);
      forall i | 0 <= i < |mid|
        ensures sep !in mid[i]
      {
        RedactSegmentAllNoSep(init, red, segs[i], sep);
      }
      SubBySegments(f, red, Join(mid, sep), sep);
      SplitJoin(mid, sep);
      forall i | 0 <= i < |segs|
        ensures MapRedact(mid, [f], red)[i] == MapRedact(segs, fields, red)[i]
      {
        assert [f][..0] == [];
        assert RedactSegmentAll([f], red, mid[i]) == RedactSegment(mid[i], f, red);
        assert mid[i] == RedactSegmentAll(init, red, segs[i]);
      }
      assert MapRedact(mid, [f], red) == MapRedact(segs, fields, red);
    }
  }

  /** Joining the pieces of a message gives the message back. */
  lemma {:induction false} JoinSplit(m: string, sep: char)
    ensures Join(Split(m, sep), sep) == m
    decreases |m|
  {
    var j := RunEnd(m, sep, 0);
    if j == |m| {
    } else {
      JoinSplit(m[j + 1..], sep);
      assert m == m[..j] + [sep] + m[j + 1..];
    }
  }

  // ---------------------------------------------------------------------
  // Idempotence

  /** A segment that redaction of field `f` leaves alone. */
  predicate Fixed(s: string, f: string, red: string) {
    RedactSegment(s, f, red) == s
  }

  /** The redaction of a segment whose first key is at `k`. */
  lemma RedactSegmentAt(s: string, f: string, red: string, k: nat)
    requires k <= |s| && KeyAt(s, f, k)
    requires forall t :: 0 <= t < k ==> !KeyAt(s, f, t)
    ensures RedactSegment(s, f, red) == s[..k] + red
  {
    KeysMeaning(s, f);
    FirstKeyIs(Keys(s, f), 0, k);
    assert s[0..k] == s[..k];
  }

  /** The redaction of a segment without a key. */
  lemma RedactSegmentNoKey(s: string, f: string, red: string)
    requires forall t :: 0 <= t <= |s| ==> !KeyAt(s, f, t)
    ensures RedactSegment(s, f, red) == s
  {
    KeysMeaning(s, f);
    assert FirstKeyFrom(Keys(s, f), 0).None?;
    assert s[0..] == s;
  }

  /** Keys at or before `q` are the same in two segments that agree before `q`. */
  lemma KeyAtSamePrefix(s: string, t: string, f: string, q: nat)
    requires q <= |s| && q <= |t| && s[..q] == t[..q]
    ensures KeyAt(s, f, q) == KeyAt(t, f, q)
  {
    KeyAtPrefix(s, f, q, q);
    KeyAtPrefix(t, f, q, q);
  }

  /** Redacting a segment twice for the same field is redacting it once. */
  lemma RedactSegmentTwice(s: string, f: string, red: string)
    ensures Fixed(RedactSegment(s, f, red), f, red)
  {
    KeysMeaning(s, f);
    match FirstKeyFrom(Keys(s, f), 0)
    case Some(k) =>
      var t := s[..k] + red;
      RedactSegmentAt(s, f, red, k);
      forall q | 0 <= q <= k
        ensures KeyAt(t, f, q) == KeyAt(s, f, q)
      {
        assert t[..q] == s[..q];
        KeyAtSamePrefix(t, s, f, q);
      }
      RedactSegmentAt(t, f, red, k);
      assert t[..k] == s[..k];
    case None =>
      RedactSegmentNoKey(s, f, red);
  }

  /** A key ends in `=`, so none ends inside a redaction free of `=`. */
  lemma NoKeyInsideRedaction(u: string, f: string, red: string, k: nat, q: nat)
    requires '=' !in red
    requires k < q <= k + |red| <= |u| && u[k..k + |red|] == red
    ensures !KeyAt(u, f, q)
  {
    assert u[q - 1] == u[k..k + |red|][q - 1 - k];
    assert u[q - 1] != '=';
  }

  /** Redacting field `g` keeps a segment fixed for field `f`. */
  lemma RedactSegmentKeepsFixed(t: string, f: string, g: string, red: string)
    requires '=' !in red
    requires Fixed(t, f, red)
    ensures Fixed(RedactSegment(t, g, red), f, red)
  {
    KeysMeaning(t, f);
    KeysMeaning(t, g);
    match FirstKeyFrom(Keys(t, g), 0)
    case None =>
      RedactSegmentNoKey(t, g, red);
    case Some(kg) =>
      var u := t[..kg] + red;
      RedactSegmentAt(t, g, red, kg);
      assert u[kg..kg + |red|] == red;
      forall q | 0 <= q <= kg
        ensures KeyAt(u, f, q) == KeyAt(t, f, q)
      {
        assert u[..q] == t[..q];
        KeyAtSamePrefix(u, t, f, q);
      }
      forall q | kg < q <= |u|
        ensures !KeyAt(u, f, q)
      {
        NoKeyInsideRedaction(u, f, red, kg, q);
      }
      match FirstKeyFrom(Keys(t, f), 0)
      case None =>
        RedactSegmentNoKey(u, f, red);
      case Some(kf) =>
        RedactSegmentAt(t, f, red, kf);
        assert t[kf..kf + |red|] == red;
        forall q | kf < q <= |t|
          ensures !KeyAt(t, g, q)
        {
          NoKeyInsideRedaction(t, g, red, kf, q);
        }
        assert kg <= kf;
        if kg < kf {
          RedactSegmentNoKey(u, f, red);
        } else {
          assert u == t;
        }
  }

  /** After redaction by all fields, the segment is fixed for each of them. */
  lemma {:induction false} RedactSegmentAllFixed(fields: seq<string>, red: string, s: string, i: nat)
    requires '=' !in red
    requires i < |fields|
    ensures Fixed(RedactSegmentAll(fields, red, s), fields[i], red)
    decreases |fields|
  {
    var n := |fields| - 1;
    var t := RedactSegmentAll(fields[..n], red, s);
    if i == n {
      RedactSegmentTwice(t, fields[n], red);
    } else {
      RedactSegmentAllFixed(fields[..n], red, s, i);
      RedactSegmentKeepsFixed(t, fields[i], fields[n], red);
    }
  }

  /** A segment fixed for every field is left alone by all of them. */
  lemma {:induction false} RedactSegmentAllOfFixed(fields: seq<string>, red: string, t: string)
    requires forall i :: 0 <= i < |fields| ==> Fixed(t, fields[i], red)
    ensures RedactSegmentAll(fields, red, t) == t
    decreases |fields|
  {
    if fields != [] {
      var n := |fields| - 1;
      RedactSegmentAllOfFixed(fields[..n], red, t);
      assert Fixed(t, fields[n], red);
    }
  }

  /** Redacting an already-redacted message changes nothing, for any
      separator that is not a word character or `=`, and any redaction free
      of `=` and of the separator. */
  lemma RedactIdempotent(fields: seq<string>, red: string, m: string, sep: char)
    requires AreFieldNames(fields) && IsPlainSeparator(sep)
    requires sep !in red && '=' !in red
    ensures Redact(fields, red, Redact(fields, red, m, sep), sep) == Redact(fields, red, m, sep)
  {
    var segs := Split(m, sep);
    var once := MapRedact(segs, fields, red);
    RedactBySegments(fields, red, m, sep);
    SplitNoSep(m, sep);
    forall i | 0 <= i < |once|
      ensures sep !in once[i]
    {
      RedactSegmentAllNoSep(fields, red, segs[i], sep);
    }
    RedactBySegments(fields, red, Join(once, sep), sep);
    SplitJoin(once, sep);
    forall i | 0 <= i < |once|
      ensures MapRedact(once, fields, red)[i] == once[i]
    {
      forall k | 0 <= k < |fields|
        ensures Fixed(once[i], fields[k], red)
      {
        RedactSegmentAllFixed(fields, red, segs[i], k);
      }
      RedactSegmentAllOfFixed(fields, red, once[i]);
    }
    assert MapRedact(once, fields, red) == once;
  }

  /** The formatter's own constants: formatting a record a second time does
      not change its message again. */
  lemma FormatIdempotent(fields: seq<string>, m: string)
    requires AreFieldNames(fields)
    ensures Redact(fields, REDACTION, Redact(fields, REDACTION, m, SEPARATOR), SEPARATOR)
         == Redact(fields, REDACTION, m, SEPARATOR)
  {
    RedactIdempotent(fields, REDACTION, m, SEPARATOR);
  }
}
