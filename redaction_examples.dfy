/** Worked messages: the behaviour of the substitution on particular
    inputs, including the message on which the substitution as Python 3.7
    and later perform it differs from the corrected one. */
module RedactionExamples {
  import opened FilteredLogger
  import opened RedactionSegments

  /** In `name=x name=` the field `name` has keys at 5 and at 12 only. */
  lemma KeysOfSample()
    ensures forall p :: 0 <= p <= 12 ==> (Keys("name=x name=", "name")[p] <==> p == 5 || p == 12)
  {
    var m := "name=x name=";
    KeysMeaning(m, "name");
    assert m[0..5] == "name=" && m[7..12] == "name=";
    forall p | 6 <= p <= 11
      ensures !KeyAt(m, "name", p)
    {
      assert m[p - 5..p][4] == m[p - 1];
    }
  }

  /** In `name=******` the field `name` has a key at 5 only. */
  lemma KeysOfRedactedSample()
    ensures forall p :: 0 <= p <= 11 ==> (Keys("name=******", "name")[p] <==> p == 5)
  {
    var m := "name=******";
    KeysMeaning(m, "name");
    assert m[0..5] == "name=";
    forall p | 6 <= p <= 11
      ensures !KeyAt(m, "name", p)
    {
      assert m[p - 5..p][4] == m[p - 1];
    }
  }

  /** The substitution as written, on `name=x name=`: the value `x name=`
      runs to the end of the message and itself ends in `name=`, so after
      replacing it the empty match at the end is taken as well and the
      redaction appears twice. */
  lemma AsWrittenDoublesRedaction()
    ensures SubAsWritten("name", "***", "name=x name=", ';') == "name=******"
  {
    var m := "name=x name=";
    var keys := Keys(m, "name");
    KeysOfSample();
    RunEndIs(m, ';', 5, 12);
    RunEndIs(m, ';', 12, 12);
    assert ScanAsWritten(m, keys, "***", ';', 12) == "***";
    assert ScanAsWritten(m, keys, "***", ';', 5) == "******";
    assert ScanAsWritten(m, keys, "***", ';', 4) == "=******";
    assert ScanAsWritten(m, keys, "***", ';', 3) == "e=******";
    assert ScanAsWritten(m, keys, "***", ';', 2) == "me=******";
    assert ScanAsWritten(m, keys, "***", ';', 1) == "ame=******";
  }

  /** The substitution as written, on its own output `name=******`. */
  lemma AsWrittenOnDoubled()
    ensures SubAsWritten("name", "***", "name=******", ';') == "name=***"
  {
    var n := "name=******";
    var nkeys := Keys(n, "name");
    KeysOfRedactedSample();
    RunEndIs(n, ';', 5, 11);
    assert ScanAsWritten(n, nkeys, "***", ';', 11) == "";
    assert ScanAsWritten(n, nkeys, "***", ';', 5) == "***";
    assert ScanAsWritten(n, nkeys, "***", ';', 4) == "=***";
    assert ScanAsWritten(n, nkeys, "***", ';', 3) == "e=***";
    assert ScanAsWritten(n, nkeys, "***", ';', 2) == "me=***";
    assert ScanAsWritten(n, nkeys, "***", ';', 1) == "ame=***";
  }

  /** A second pass of the substitution as written over its own output
      changes it again, unlike the corrected one (`RedactIdempotent`). */
  lemma AsWrittenNotIdempotent()
    ensures SubAsWritten("name", "***", SubAsWritten("name", "***", "name=x name=", ';'), ';')
         != SubAsWritten("name", "***", "name=x name=", ';')
  {
    AsWrittenDoublesRedaction();
    AsWrittenOnDoubled();
    assert "name=***" != "name=******";
  }

  /** The corrected substitution writes the redaction once on the same
      message, and leaves its own output alone. */
  lemma CorrectedRedactsOnce()
    ensures Sub("name", "***", "name=x name=", ';') == "name=***"
    ensures Sub("name", "***", "name=***", ';') == "name=***"
  {
    var m := "name=x name=";
    KeysMeaning(m, "name");
    assert m[0..5] == "name=";
    RunEndIs(m, ';', 5, 12);
    FirstKeyReplaced(m, "name", "***", ';', 5);
    assert m[..5] == "name=";
    var r := "name=***";
    KeysMeaning(r, "name");
    assert r[0..5] == "name=";
    RunEndIs(r, ';', 5, 8);
    FirstKeyReplaced(r, "name", "***", ';', 5);
    assert r[..5] == "name=";
  }

  /** A key not at a word boundary is left alone: in
      `username=bob;name=al` only the value of `name=` after the separator
      is replaced, not the `name=` inside `username=`. */
  lemma WordBoundarySample()
    ensures Sub("name", "***", "username=bob;name=al", ';') == "username=bob;name=***"
  {
    var m := "username=bob;name=al";
    KeysMeaning(m, "name");
    assert m[4..9] == "name=" && IsWordChar(m[3]);
    assert m[13..18] == "name=" && !IsWordChar(m[12]);
    forall p | 0 <= p < 18
      ensures !KeyAt(m, "name", p)
    {
      if p >= 5 && p != 9 {
        assert m[p - 5..p][4] == m[p - 1];
      }
    }
    RunEndIs(m, ';', 18, 20);
    FirstKeyReplaced(m, "name", "***", ';', 18);
    assert m[..18] == "username=bob;name=";
  }

  /** An empty value still gets the redaction, and the separator after it
      is kept: `name=;x` becomes `name=***;x`. */
  lemma EmptyValueSample()
    ensures Sub("name", "***", "name=;x", ';') == "name=***;x"
  {
    var m := "name=;x";
    var keys := Keys(m, "name");
    KeysMeaning(m, "name");
    assert m[0..5] == "name=";
    forall p | 6 <= p <= 7
      ensures !keys[p]
    {
      assert m[p - 5..p][4] == m[p - 1];
    }
    RunEndIs(m, ';', 5, 5);
    FirstKeyReplaced(m, "name", "***", ';', 5);
    NoKeyUnchangedFrom(m, keys, "***", ';', 6);
    assert m[..5] == "name=" && m[6..] == "x";
  }
}
