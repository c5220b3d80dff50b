/** Log-message redaction: `filter_datum` and `RedactingFormatter.format`.

    For one field name `f`, the source substitutes the regular expression
    `(?<=\bf=)([^sep]*)` with the redaction string: wherever `f=` stands at a
    word boundary, the run of non-separator characters that follows it (which
    may be empty) is replaced, matches being found left to right without
    overlapping. `filter_datum` does this for each field in turn. */
module FilteredLogger {

  const REDACTION: string := "***"
  const SEPARATOR: char := ';'
  const PII_FIELDS: seq<string> := ["name", "email", "ssn", "password", "credit_card"]

  /** The characters `\w` and `\b` treat as word characters (ASCII part). */
  predicate IsWordChar(c: char) {
    ('a' <= c <= 'z') || ('A' <= c <= 'Z') || ('0' <= c <= '9') || c == '_'
  }

  /** A field name the pattern can carry without escaping: a non-empty word. */
  predicate IsFieldName(f: string) {
    |f| > 0 && forall i :: 0 <= i < |f| ==> IsWordChar(f[i])
  }

  predicate AreFieldNames(fields: seq<string>) {
    forall i :: 0 <= i < |fields| ==> IsFieldName(fields[i])
  }

  /** The lookbehind `(?<=\bf=)` holds at position `p` of `m`: the text just
      before `p` is `f=`, and the character before that key, if any, is not a
      word character (a word boundary, `f` starting with a word character). */
  predicate KeyAt(m: string, f: string, p: int) {
    var s := p - |f| - 1;
    0 <= s && p <= |m| && m[s..p] == f + "=" && (s == 0 || !IsWordChar(m[s - 1]))
  }

  /** Where the greedy `[^sep]*` starting at `p` stops: the first separator at
      or after `p`, or the end of the message. */
  function RunEnd(m: string, sep: char, p: nat): (j: nat)
    requires p <= |m|
    ensures p <= j <= |m|
    ensures forall k :: p <= k < j ==> m[k] != sep
    ensures j == |m| || m[j] == sep
    decreases |m| - p
  {
    if p == |m| || m[p] == sep then p else RunEnd(m, sep, p + 1)
  }

  /** Whether the lookbehind for field `f` holds at each of the positions
      `0 .. n - 1` of `m`. */
  function KeysUpTo(m: string, f: string, n: nat): (keys: seq<bool>)
    ensures |keys| == n
  {
    if n == 0 then [] else KeysUpTo(m, f, n - 1) + [KeyAt(m, f, n - 1)]
  }

  /** The positions of `m` at which the lookbehind for field `f` holds. */
  function Keys(m: string, f: string): (keys: seq<bool>)
    ensures |keys| == |m| + 1
  {
    KeysUpTo(m, f, |m| + 1)
  }

  lemma {:induction false} KeysUpToMeaning(m: string, f: string, n: nat)
    ensures forall p :: 0 <= p < n ==> (KeysUpTo(m, f, n)[p] <==> KeyAt(m, f, p))
  {
    if n > 0 {
      KeysUpToMeaning(m, f, n - 1);
    }
  }

  /** The marks of `Keys` are the positions where the lookbehind holds. */
  lemma KeysMeaning(m: string, f: string)
    ensures forall p :: 0 <= p <= |m| ==> (Keys(m, f)[p] <==> KeyAt(m, f, p))
  {
    KeysUpToMeaning(m, f, |m| + 1);
  }

  /** The substitution, scanning `m` from position `p`, where `keys` marks
      the positions at which a match may start. After a match ending at `j`,
      the separator at `j` is copied and the scan goes on after it: no empty
      match is taken right where a match ended. */
  function Scan(m: string, keys: seq<bool>, red: string, sep: char, p: nat): string
    requires |keys| == |m| + 1 && p <= |m|
    decreases |m| - p
  {
    if keys[p] then
      var j := RunEnd(m, sep, p);
      red + (if j == |m| then [] else [m[j]] + Scan(m, keys, red, sep, j + 1))
    else if p == |m| then []
    else [m[p]] + Scan(m, keys, red, sep, p + 1)
  }

  /** One iteration of the loop in `filter_datum`: `re.sub` for field `f`. */
  function Sub(f: string, red: string, m: string, sep: char): string {
    Scan(m, Keys(m, f), red, sep, 0)
  }

  /** The scan as Python 3.7 and later perform it: an empty match is also
      taken where a non-empty match has just ended. */
  function ScanAsWritten(m: string, keys: seq<bool>, red: string, sep: char, p: nat): string
    requires |keys| == |m| + 1 && p <= |m|
    decreases |m| - p
  {
    if keys[p] then
      var j := RunEnd(m, sep, p);
      if j > p then red + ScanAsWritten(m, keys, red, sep, j)
      else red + (if j == |m| then [] else [m[j]] + ScanAsWritten(m, keys, red, sep, j + 1))
    else if p == |m| then []
    else [m[p]] + ScanAsWritten(m, keys, red, sep, p + 1)
  }

  function SubAsWritten(f: string, red: string, m: string, sep: char): string {
    ScanAsWritten(m, Keys(m, f), red, sep, 0)
  }

  /** The message after the loop of `filter_datum` has handled `fields`, in
      order (the last field is substituted last). */
  function Redact(fields: seq<string>, red: string, m: string, sep: char): string
    decreases |fields|
  {
    if fields == [] then m
    else Sub(fields[|fields| - 1], red, Redact(fields[..|fields| - 1], red, m, sep), sep)
  }

  /** `filter_datum`: rewrites the message once per field, in order. The
      field names are words and neither the separator nor the redaction holds
      a backslash, so that the pattern and the replacement need no escaping. */
  method FilterDatum(fields: seq<string>, redaction: string, message: string, separator: char)
    returns (r: string)
    requires AreFieldNames(fields)
    requires separator != '\\' && '\\' !in redaction
    ensures r == Redact(fields, redaction, message, separator)
    ensures fields == [] ==> r == message
  {
    r := message;
    for i := 0 to |fields|
      invariant r == Redact(fields[..i], redaction, message, separator)
    {
      assert fields[..i + 1][..i] == fields[..i];
      r := Sub(fields[i], redaction, r, separator);
    }
    assert fields[..|fields|] == fields;
  }

  /** The part of a `logging.LogRecord` the formatter rewrites. */
  class LogRecord {
    var msg: string

    constructor (msg: string)
      ensures this.msg == msg
    {
      this.msg := msg;
    }
  }

  class RedactingFormatter {
    const fields: seq<string>

    constructor (fields: seq<string>)
      ensures this.fields == fields
    {
      this.fields := fields;
    }

    /** `format`: replaces `record.msg` by its redaction before the base
        formatter renders the record. */
    method Format(record: LogRecord)
      requires AreFieldNames(fields)
      modifies record
      ensures record.msg == Redact(fields, REDACTION, old(record.msg), SEPARATOR)
    {
      record.msg := FilterDatum(fields, REDACTION, record.msg, SEPARATOR);
    }
  }

  /** The fields the logger is built with are words, so its formatter can
      redact them. */
  lemma PiiFieldsAreFieldNames()
    ensures AreFieldNames(PII_FIELDS)
  {
  }

  // ---------------------------------------------------------------------
  // Properties of one substitution

  /** Whether `KeyAt` holds at `p` depends only on the text before `p`. */
  lemma KeyAtPrefix(m: string, f: string, p: int, n: int)
    requires 0 <= p <= n <= |m|
    ensures KeyAt(m, f, p) == KeyAt(m[..n], f, p)
  {
    var s := p - |f| - 1;
    if 0 <= s {
      assert m[s..p] == m[..n][s..p];
    }
  }

  /** One step of the scan at a key: the value run is replaced. */
  lemma ScanAtKey(m: string, keys: seq<bool>, red: string, sep: char, p: nat, j: nat)
    requires |keys| == |m| + 1 && p <= |m| && keys[p] && j == RunEnd(m, sep, p)
    ensures j == |m| ==> Scan(m, keys, red, sep, p) == red
    ensures j < |m| ==> Scan(m, keys, red, sep, p) == red + ([m[j]] + Scan(m, keys, red, sep, j + 1))
  {
  }

  /** One step of the scan elsewhere: the character is copied. */
  lemma ScanCopy(m: string, keys: seq<bool>, red: string, sep: char, p: nat)
    requires |keys| == |m| + 1 && p < |m| && !keys[p]
    ensures Scan(m, keys, red, sep, p) == [m[p]] + Scan(m, keys, red, sep, p + 1)
  {
  }

  /** Positions that are not keys are copied unchanged: the scan from `q`
      reproduces `m[q..k]` and then continues as the scan from `k`. */
  lemma {:induction false} CopyUntilKey(m: string, keys: seq<bool>, red: string, sep: char, q: nat, k: nat)
    requires |keys| == |m| + 1 && q <= k <= |m|
    requires forall t :: q <= t < k ==> !keys[t]
    ensures Scan(m, keys, red, sep, q) == m[q..k] + Scan(m, keys, red, sep, k)
    decreases k - q
  {
    if q < k {
      CopyUntilKey(m, keys, red, sep, q + 1, k);
      ScanCopy(m, keys, red, sep, q);
      assert m[q..k] == [m[q]] + m[q + 1..k];
    }
  }

  /** The first key of field `f` in `m` is at `k`: everything before `k`
      (the key text `f=` included) is kept, the value run from `k` up to the
      next separator is replaced by `red`, that separator is kept, and the
      scan resumes after it, so that keys inside the value are not matched
      on their own. */
  lemma FirstKeyReplaced(m: string, f: string, red: string, sep: char, k: nat)
    requires k <= |m| && KeyAt(m, f, k)
    requires forall t :: 0 <= t < k ==> !KeyAt(m, f, t)
    ensures var j := RunEnd(m, sep, k);
      Sub(f, red, m, sep) ==
        m[..k] + red + (if j == |m| then [] else [sep] + Scan(m, Keys(m, f), red, sep, j + 1))
    ensures m[k - |f| - 1..k] == f + "="
  {
    var keys := Keys(m, f);
    KeysMeaning(m, f);
    CopyUntilKey(m, keys, red, sep, 0, k);
    ScanAtKey(m, keys, red, sep, k, RunEnd(m, sep, k));
  }

  /** A message with no key of `f` at a word boundary is left unchanged. */
  lemma {:induction false} NoKeyUnchangedFrom(m: string, keys: seq<bool>, red: string, sep: char, q: nat)
    requires |keys| == |m| + 1 && q <= |m|
    requires forall t :: q <= t <= |m| ==> !keys[t]
    ensures Scan(m, keys, red, sep, q) == m[q..]
    decreases |m| - q
  {
    if q < |m| {
      NoKeyUnchangedFrom(m, keys, red, sep, q + 1);
      assert m[q..] == [m[q]] + m[q + 1..];
    }
  }

  lemma NoKeyUnchanged(m: string, f: string, red: string, sep: char)
    requires forall t :: 0 <= t <= |m| ==> !KeyAt(m, f, t)
    ensures Sub(f, red, m, sep) == m
  {
    KeysMeaning(m, f);
    NoKeyUnchangedFrom(m, Keys(m, f), red, sep, 0);
  }

  /** With no field, or when no listed field has a key in the message, the
      message comes back unchanged. */
  lemma {:induction false} RedactWithoutKeys(fields: seq<string>, red: string, m: string, sep: char)
    requires forall i, t :: 0 <= i < |fields| && 0 <= t <= |m| ==> !KeyAt(m, fields[i], t)
    ensures Redact(fields, red, m, sep) == m
    decreases |fields|
  {
    if fields != [] {
      var n := |fields| - 1;
      RedactWithoutKeys(fields[..n], red, m, sep);
      NoKeyUnchanged(m, fields[n], red, sep);
    }
  }
}
