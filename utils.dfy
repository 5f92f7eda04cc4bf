/**
 * `get_unique_short_id`: draw random codes of `length` characters from
 * ASCII letters and digits until one is not yet in the table.
 *
 * The random source is the oracle `pick`: character `j` of attempt `a` is
 * `Alphabet[pick(a, j) % 62]`, which reaches every alphabet string (see
 * `EveryDrawSequencePossible`). The source loops without bound; here
 * `fuel` bounds how many attempts are looked at, and `None` means that none
 * of those attempts was fresh.
 */
module Utils {
  import opened Wrappers
  import opened Text
  import opened Models

  /** The `n` consecutive ASCII characters starting at `first`. */
  function CharRange(first: char, n: nat): (s: string)
    requires first as int + n <= 128
    ensures |s| == n && forall i :: 0 <= i < n ==> s[i] as int == first as int + i
  {
    seq(n, i requires 0 <= i < n => (first as int + i) as char)
  }

  /** `string.ascii_lowercase`, `string.ascii_uppercase`, `string.digits`. */
  const AsciiLowercase: string := CharRange('a', 26)
  const AsciiUppercase: string := CharRange('A', 26)
  const Digits: string := CharRange('0', 10)

  /** `ALPHABET = string.ascii_letters + string.digits`. */
  const Alphabet: string := AsciiLowercase + AsciiUppercase + Digits

  const DefaultLength: nat := 6

  /** The three constants spell Python's `ascii_lowercase`, `ascii_uppercase` and `digits`. */
  lemma AsciiConstantsLiteral()
    ensures AsciiLowercase == "abcdefghijklmnopqrstuvwxyz"
    ensures AsciiUppercase == "ABCDEFGHIJKLMNOPQRSTUVWXYZ"
    ensures Digits == "0123456789"
    ensures |Alphabet| == 62
  {
  }

  /** Position of an alphanumeric character in the alphabet. */
  function AlphabetIndex(c: char): (k: nat)
    requires IsAsciiAlnum(c)
    ensures k < |Alphabet| && Alphabet[k] == c
  {
    if IsAsciiLower(c) then c as int - 'a' as int
    else if IsAsciiUpper(c) then 26 + (c as int - 'A' as int)
    else 52 + (c as int - '0' as int)
  }

  /** Membership in the alphabet is the character class `[A-Za-z0-9]`. */
  lemma AlphabetIsAsciiAlnum(c: char)
    ensures c in Alphabet <==> IsAsciiAlnum(c)
  {
    if IsAsciiAlnum(c) {
      assert Alphabet[AlphabetIndex(c)] == c;
    }
  }

  predicate IsAlphabetString(s: string) {
    forall j :: 0 <= j < |s| ==> s[j] in Alphabet
  }

  /** `"".join(random.choices(ALPHABET, k=length))` for attempt number `attempt`. */
  function Draw(pick: (nat, nat) -> nat, attempt: nat, length: nat): (c: string)
    ensures |c| == length
    ensures IsAlphabetString(c)
  {
    seq(length, j requires 0 <= j < length => Alphabet[pick(attempt, j) % |Alphabet|])
  }

  /** Attempt `a` of `pick` draws `cs[a]`, for every attempt that `cs` lists. */
  predicate DrawsSpell(pick: (nat, nat) -> nat, cs: seq<string>, length: nat) {
    forall a :: 0 <= a < |cs| ==> Draw(pick, a, length) == cs[a]
  }

  /**
   * The draws are unconstrained: any sequence of alphabet strings of length
   * `length` is what some random source draws at attempts 0, 1, 2, ...
   */
  lemma EveryDrawSequencePossible(cs: seq<string>, length: nat)
    requires forall a :: 0 <= a < |cs| ==> |cs[a]| == length && IsAlphabetString(cs[a])
    ensures exists pick: (nat, nat) -> nat :: DrawsSpell(pick, cs, length)
  {
    forall a, j | 0 <= a < |cs| && 0 <= j < |cs[a]| ensures IsAsciiAlnum(cs[a][j]) {
      AlphabetIsAsciiAlnum(cs[a][j]);
    }
    forall a | 0 <= a < |cs| ensures Draw(PickFor(cs), a, length) == cs[a] {
      PickForAttempt(cs, a, length);
    }
    assert DrawsSpell(PickFor(cs), cs, length);
  }

  lemma PickForAttempt(cs: seq<string>, a: nat, length: nat)
    requires forall a, j :: 0 <= a < |cs| && 0 <= j < |cs[a]| ==> IsAsciiAlnum(cs[a][j])
    requires a < |cs| && |cs[a]| == length
    ensures Draw(PickFor(cs), a, length) == cs[a]
  {
    var d := Draw(PickFor(cs), a, length);
    forall j | 0 <= j < length ensures d[j] == cs[a][j] {
      var k := AlphabetIndex(cs[a][j]);
      assert PickFor(cs)(a, j) == k;
      assert k % |Alphabet| == k;
    }
  }

  /** A random source that spells out `cs[a]` at attempt `a`. */
  function PickFor(cs: seq<string>): (nat, nat) -> nat
    requires forall a, j :: 0 <= a < |cs| && 0 <= j < |cs[a]| ==> IsAsciiAlnum(cs[a][j])
  {
    (a: nat, j: nat) => if a < |cs| && j < |cs[a]| then AlphabetIndex(cs[a][j]) else 0
  }

  /** `URLMap.query.filter_by(short=candidate).first()` is truthy. */
  predicate Exists(t: Table, candidate: string)
    requires ValidTable(t)
  {
    FindByShort(t, candidate).Some?
  }

  /** Specification of the loop: the first attempt in `[from, fuel)` whose draw the table does not hold. */
  function FirstFresh(t: Table, pick: (nat, nat) -> nat, length: nat, from: nat, fuel: nat): (a: Option<nat>)
    requires ValidTable(t)
    ensures a.Some? ==> from <= a.value < fuel && Draw(pick, a.value, length) !in t
    decreases fuel - from
  {
    if fuel <= from then None
    else if !Exists(t, Draw(pick, from, length)) then Some(from)
    else FirstFresh(t, pick, length, from + 1, fuel)
  }

  /** A found attempt is fresh and every attempt before it was taken. */
  lemma {:induction false} FirstFreshSome(t: Table, pick: (nat, nat) -> nat, length: nat, from: nat, fuel: nat)
    requires ValidTable(t)
    requires FirstFresh(t, pick, length, from, fuel).Some?
    ensures var a := FirstFresh(t, pick, length, from, fuel).value;
            from <= a < fuel && Draw(pick, a, length) !in t &&
            forall b :: from <= b < a ==> Draw(pick, b, length) in t
    decreases fuel - from
  {
    if fuel > from && Exists(t, Draw(pick, from, length)) {
      FirstFreshSome(t, pick, length, from + 1, fuel);
    }
  }

  /** Nothing is found exactly when every attempt in range is taken. */
  lemma {:induction false} FirstFreshNone(t: Table, pick: (nat, nat) -> nat, length: nat, from: nat, fuel: nat)
    requires ValidTable(t)
    ensures FirstFresh(t, pick, length, from, fuel).None? <==>
            forall b :: from <= b < fuel ==> Draw(pick, b, length) in t
    decreases fuel - from
  {
    if fuel > from && Exists(t, Draw(pick, from, length)) {
      FirstFreshNone(t, pick, length, from + 1, fuel);
    }
  }

  /** More fuel never changes an attempt already found: the bound only limits how far the model looks. */
  lemma {:induction false} FirstFreshFuelMonotone(t: Table, pick: (nat, nat) -> nat, length: nat, from: nat, fuel: nat, more: nat)
    requires ValidTable(t)
    requires FirstFresh(t, pick, length, from, fuel).Some? && fuel <= more
    ensures FirstFresh(t, pick, length, from, more) == FirstFresh(t, pick, length, from, fuel)
    decreases fuel - from
  {
    if Exists(t, Draw(pick, from, length)) {
      FirstFreshFuelMonotone(t, pick, length, from + 1, fuel, more);
    }
  }

  /**
   * When the table holds every code of the requested length, no attempt is
   * ever fresh, whatever the draws and however much fuel: the source's loop
   * would not terminate.
   */
  lemma SaturatedTableNeverYields(t: Table, pick: (nat, nat) -> nat, length: nat, fuel: nat)
    requires ValidTable(t)
    requires forall s :: |s| == length && IsAlphabetString(s) ==> s in t
    ensures FirstFresh(t, pick, length, 0, fuel) == None
  {
  }

  /** `get_unique_short_id(length)`, looking at the first `fuel` attempts. */
  method GetUniqueShortId(t: Table, pick: (nat, nat) -> nat, fuel: nat, length: nat := DefaultLength)
    returns (r: Option<string>)
    requires ValidTable(t)
    ensures r.Some? ==> |r.value| == length && IsAlphabetString(r.value) && !Exists(t, r.value)
    ensures r.Some? ==> exists a :: 0 <= a < fuel && r.value == Draw(pick, a, length) &&
                                    forall b :: 0 <= b < a ==> Draw(pick, b, length) in t
    ensures r.None? <==> forall a :: 0 <= a < fuel ==> Draw(pick, a, length) in t
    ensures r == (var a := FirstFresh(t, pick, length, 0, fuel);
                  if a.Some? then Some(Draw(pick, a.value, length)) else None)
  {
    var attempt := 0;
    while attempt < fuel
      invariant attempt <= fuel
      invariant forall b :: 0 <= b < attempt ==> Draw(pick, b, length) in t
      invariant FirstFresh(t, pick, length, attempt, fuel) == FirstFresh(t, pick, length, 0, fuel)
    {
      var candidate := Draw(pick, attempt, length);
      if !Exists(t, candidate) {
        return Some(candidate);
      }
      attempt := attempt + 1;
    }
    return None;
  }
}
