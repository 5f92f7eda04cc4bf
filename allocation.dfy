/**
 * How the three parts fit together: what the custom-code validator says of a
 * generated code, when a generated code can be stored, and the reserved word
 * that generation never checks for.
 */
module Allocation {
  import opened Wrappers
  import opened Text
  import opened Models
  import opened Forms
  import opened Utils

  /** A drawn code is made of alphanumeric characters only, so it has no whitespace. */
  lemma DrawIsAlnum(pick: (nat, nat) -> nat, a: nat, length: nat)
    ensures AllAllowed(Draw(pick, a, length))
    ensures forall j :: 0 <= j < length ==> !IsSpace(Draw(pick, a, length)[j])
  {
  }

  /** With the default length 6 a drawn code can never be the 5-letter reserved word. */
  lemma DefaultDrawNotReserved(pick: (nat, nat) -> nat, a: nat)
    ensures !IsReserved(Draw(pick, a, DefaultLength))
  {
  }

  /**
   * Generation makes no reserved-word check: at length 5 some random source
   * draws "files" itself.
   */
  lemma ReservedDrawableAtLengthFive()
    ensures exists pick: (nat, nat) -> nat :: IsReserved(Draw(pick, 0, 5))
  {
    var w := "files";
    forall j | 0 <= j < |w| ensures w[j] in Alphabet {
      AlphabetIsAsciiAlnum(w[j]);
    }
    EveryDrawSequencePossible([w], 5);
    var pick :| DrawsSpell(pick, [w], 5);
    assert Draw(pick, 0, 5) == w;
    assert AsciiLower(w) == w;
    assert IsReserved(Draw(pick, 0, 5));
  }

  /**
   * A code of length 1 to 16 other than 5, drawn by the generator, passes the
   * reserved and format checks of the custom-code validator; only the existence
   * check can reject it.
   */
  lemma DrawPassesCustomChecks(t: Table, pick: (nat, nat) -> nat, a: nat, length: nat)
    requires ValidTable(t)
    requires 0 < length <= MaxCustomLength && length != 5
    ensures var c := Draw(pick, a, length);
            ValidateCustomId(Some(c), t) == if c in t then Rejected(Taken) else Accepted
  {
    var c := Draw(pick, a, length);
    DrawIsAlnum(pick, a, length);
    StripWithoutSpaces(c);
    if c in t {
      TakenRejected(c, t);
    }
  }

  /**
   * A fresh generated code fits the `short` column, so a row carrying it, a
   * fitting `original` and an unused id is admitted by the table.
   */
  lemma FreshDrawInsertable(t: Table, pick: (nat, nat) -> nat, a: nat, length: nat, id: int, original: string)
    requires ValidTable(t)
    requires length <= MaxShortLength && |original| <= MaxOriginalLength && !IdInUse(t, id)
    requires Draw(pick, a, length) !in t
    ensures Insert(t, URLMap(id, original, Draw(pick, a, length))).Success?
  {
  }

  /**
   * A custom code is accepted on an empty table, rejected as taken once a row
   * holds it, and "files" is rejected as reserved throughout.
   */
  lemma CustomCodeScenario()
    ensures var t0: Table := map[];
            var m := URLMap(1, "https://example.com/a", "abc123");
            ValidateCustomId(Some("abc123"), t0) == Accepted &&
            Insert(t0, m).Success? &&
            ValidateCustomId(Some("abc123"), Insert(t0, m).value) == Rejected(Taken) &&
            ValidateCustomId(Some("files"), Insert(t0, m).value) == Rejected(Reserved)
  {
    var t0: Table := map[];
    var m := URLMap(1, "https://example.com/a", "abc123");
    var c := "abc123";
    assert forall j :: 0 <= j < |c| ==> IsAsciiAlnum(c[j]);
    StripWithoutSpaces(c);
    StripWithoutSpaces("files");
    assert IsReserved("files");
    assert !IsReserved(c) by {
      assert c[0] != "files"[0] && c[0] != "FILES"[0];
    }
    assert Insert(t0, m).Success?;
    var t1 := Insert(t0, m).value;
    assert c in t1;
    TakenRejected(c, t1);
    ReservedRejected("files", t1);
  }
}
