/**
 * `URLForm.validate_custom_id`: the hand-written check on a user-supplied
 * short code. The candidate is stripped, then rejected if it is a reserved
 * word (ignoring case), if it is too long or not alphanumeric, or if the
 * table already holds it, in that order. Missing or empty input is accepted
 * without any check.
 */
module Forms {
  import opened Wrappers
  import opened Text
  import opened Models

  const MaxCustomLength: nat := 16
  const ReservedIds: set<string> := {"files"}

  const MsgAlreadyExists: string := "Предложенный вариант короткой ссылки уже существует."
  const MsgInvalidName: string := "Указано недопустимое имя для короткой ссылки"

  predicate AllAllowed(s: string) {
    forall i :: 0 <= i < |s| ==> IsAsciiAlnum(s[i])
  }

  /**
   * `re.match(ALLOWED_RE, s)` with ALLOWED_RE = `^[A-Za-z0-9]+$`. Without
   * MULTILINE, Python's `$` matches at the end and also just before a final
   * newline, so one trailing "\n" is let through.
   */
  predicate AllowedReMatches(s: string): (b: bool)
    ensures b ==> |s| > 0
    ensures |s| > 0 && s[|s| - 1] != '\n' ==> (b <==> AllAllowed(s))
  {
    (|s| > 0 && AllAllowed(s)) ||
    (|s| > 1 && s[|s| - 1] == '\n' && AllAllowed(s[..|s| - 1]))
  }

  /** `candidate.lower() in RESERVED_IDS`: exactly the case variants of "files". */
  predicate IsReserved(c: string): (b: bool)
    ensures b <==> |c| == 5 && forall i :: 0 <= i < 5 ==> c[i] == "files"[i] || c[i] == "FILES"[i]
  {
    LowerIsFilesIff(c);
    AsciiLower(c) in ReservedIds
  }

  /** A well-formed short code: 1 to 16 characters, each in `[A-Za-z0-9]`. */
  predicate IsShortCode(c: string) {
    0 < |c| <= MaxCustomLength && AllAllowed(c)
  }

  /** Which check rejected the candidate. */
  datatype Rejection = Reserved | Malformed | Taken

  datatype Verdict = Accepted | Rejected(reason: Rejection)

  /** The message each rejection carries: a reserved word reads as one that already exists. */
  function Message(r: Rejection): (m: string)
    ensures m == MsgAlreadyExists <==> r != Malformed
    ensures m == MsgInvalidName <==> r == Malformed
  {
    match r
    case Reserved => MsgAlreadyExists
    case Malformed => MsgInvalidName
    case Taken => MsgAlreadyExists
  }

  /** `validate_custom_id(field)` with `field.data` as `data` (None for a missing value) against table `t`. */
  function ValidateCustomId(data: Option<string>, t: Table): (v: Verdict)
    requires ValidTable(t)
    ensures v == Accepted <==>
            data.None? || data.value == "" ||
            (IsShortCode(Strip(data.value)) && !IsReserved(Strip(data.value)) && Strip(data.value) !in t)
  {
    if data.None? || data.value == [] then Accepted
    else
      var candidate := Strip(data.value);
      if IsReserved(candidate) then Rejected(Reserved)
      else if |candidate| > MaxCustomLength || !AllowedReMatches(candidate) then Rejected(Malformed)
      else if FindByShort(t, candidate).Some? then Rejected(Taken)
      else Accepted
  }

  /** On a stripped string the regular expression accepts exactly the non-empty alphanumeric strings. */
  lemma StrippedReMatches(raw: string)
    ensures AllowedReMatches(Strip(raw)) <==> |Strip(raw)| > 0 && AllAllowed(Strip(raw))
  {
  }

  /** A reserved word is itself a well-formed code, so the reserved and format checks never overlap. */
  lemma ReservedIsShortCode(c: string)
    requires IsReserved(c)
    ensures IsShortCode(c) && |c| == 5
  {
  }

  /** Missing and empty input are accepted whatever the table holds. */
  lemma EmptyInputAccepted(t: Table)
    requires ValidTable(t)
    ensures ValidateCustomId(None, t) == Accepted
    ensures ValidateCustomId(Some(""), t) == Accepted
  {
  }

  /** Every check sees the stripped candidate: stripping first changes no verdict. */
  lemma StripBeforeChecks(raw: string, t: Table)
    requires ValidTable(t)
    requires Strip(raw) != ""
    ensures ValidateCustomId(Some(raw), t) == ValidateCustomId(Some(Strip(raw)), t)
  {
    StripIdempotent(raw);
  }

  /** Input made only of whitespace strips to "" and then fails the format check. */
  lemma WhitespaceOnlyMalformed(raw: string, t: Table)
    requires ValidTable(t)
    requires raw != "" && forall i :: 0 <= i < |raw| ==> IsSpace(raw[i])
    ensures ValidateCustomId(Some(raw), t) == Rejected(Malformed)
  {
  }

  /** Any case variant of a reserved word is rejected with the "already exists" message. */
  lemma ReservedRejected(raw: string, t: Table)
    requires ValidTable(t)
    requires IsReserved(Strip(raw))
    ensures ValidateCustomId(Some(raw), t) == Rejected(Reserved)
    ensures Message(Rejected(Reserved).reason) == MsgAlreadyExists
  {
  }

  /** Too long or containing a character outside `[A-Za-z0-9]`: rejected with the "invalid name" message. */
  lemma MalformedRejected(raw: string, t: Table)
    requires ValidTable(t)
    requires raw != ""
    requires |Strip(raw)| > MaxCustomLength || exists i :: 0 <= i < |Strip(raw)| && !IsAsciiAlnum(Strip(raw)[i])
    ensures ValidateCustomId(Some(raw), t) == Rejected(Malformed)
    ensures Message(Malformed) == MsgInvalidName
  {
  }

  /** A well-formed, non-reserved candidate that the table holds is rejected with the "already exists" message. */
  lemma TakenRejected(raw: string, t: Table)
    requires ValidTable(t)
    requires IsShortCode(Strip(raw)) && !IsReserved(Strip(raw)) && Strip(raw) in t
    ensures ValidateCustomId(Some(raw), t) == Rejected(Taken)
    ensures Message(Taken) == MsgAlreadyExists
  {
  }

  /**
   * The store is consulted last: a reserved or malformed candidate gets the
   * same verdict against every table, and that verdict is never `Taken`.
   */
  lemma StoreConsultedLast(raw: string, t1: Table, t2: Table)
    requires ValidTable(t1) && ValidTable(t2)
    requires IsReserved(Strip(raw)) || !IsShortCode(Strip(raw))
    ensures ValidateCustomId(Some(raw), t1) == ValidateCustomId(Some(raw), t2)
    ensures ValidateCustomId(Some(raw), t1) != Rejected(Taken)
  {
  }

  /** The "taken" verdict only ever reaches well-formed, non-reserved candidates that the table holds. */
  lemma TakenOnlyAfterOtherChecks(raw: string, t: Table)
    requires ValidTable(t)
    requires ValidateCustomId(Some(raw), t) == Rejected(Taken)
    ensures IsShortCode(Strip(raw)) && !IsReserved(Strip(raw)) && Strip(raw) in t
  {
  }

  /** "FILES", "Files" and " Files " all hit the reserved word. */
  lemma ReservedExamples(t: Table)
    requires ValidTable(t)
    ensures ValidateCustomId(Some("FILES"), t) == Rejected(Reserved)
    ensures ValidateCustomId(Some("Files"), t) == Rejected(Reserved)
    ensures ValidateCustomId(Some(" Files "), t) == Rejected(Reserved)
  {
    StripWithoutSpaces("FILES");
    StripWithoutSpaces("Files");
    assert AsciiLower("FILES") == "files";
    assert AsciiLower("Files") == "files";
    var s := " Files ";
    assert LeadingSpaces(s) == 1 by {
      assert LeadingSpaces(s[1..]) == 0;
    }
    assert TrailingSpaces(s) == 1 by {
      assert TrailingSpaces(s[..6]) == 0;
    }
    assert Strip(s) == "Files";
  }
}
