/**
 * The form handling of the insert route: which form fields are read,
 * the defaults used for missing ones, and the integer conversion applied
 * to the numeric ones.
 */
module Form {
  import opened Results

  /** The submitted form: field name to field value. */
  type FormData = map<string, string>

  /** Days a note lives when the form does not say otherwise. */
  const DefaultTtlDays: int := 1

  /** Visits a note allows when the form does not say otherwise. */
  const DefaultMaxVisits: int := 3

  /** Why a form was rejected: a field read by subscript was absent, or a field was not an integer. */
  datatype FormError = MissingField(key: string) | NotAnInteger(key: string)

  /** The parameters the insert route hands to the store. */
  datatype InsertParams = InsertParams(isPrivate: bool, ttlDays: int, maxVisits: int, note: string)

  predicate IsDigit(c: char) {
    '0' <= c <= '9'
  }

  /** A non-empty run of decimal digits. */
  predicate IsDigits(s: string) {
    |s| > 0 && forall i :: 0 <= i < |s| ==> IsDigit(s[i])
  }

  /**
   * Most decimal digits `int(...)` converts; longer digit runs, leading
   * zeros included, are rejected.
   */
  const MaxIntDigits: nat := 4300

  /** An optional sign followed by a non-empty run of decimal digits. */
  predicate IsSignedDigits(s: string) {
    || IsDigits(s)
    || (|s| > 1 && (s[0] == '-' || s[0] == '+') && IsDigits(s[1..]))
  }

  /** A decimal integer literal `int(...)` accepts: signed digits, at most `MaxIntDigits` of them. */
  predicate IsIntLiteral(s: string) {
    && IsSignedDigits(s)
    && (if IsDigits(s) then |s| else |s| - 1) <= MaxIntDigits
  }

  function DigitValue(c: char): (v: nat)
    requires IsDigit(c)
  {
    (c as int) - ('0' as int)
  }

  function DigitChar(d: nat): (c: char)
    requires d < 10
    ensures IsDigit(c) && DigitValue(c) == d
  {
    ('0' as int + d) as char
  }

  /** The value of a run of decimal digits, most significant first. */
  function DigitsValue(s: string): (v: nat)
    requires forall i :: 0 <= i < |s| ==> IsDigit(s[i])
    decreases |s|
  {
    if |s| == 0 then 0 else DigitsValue(s[..|s| - 1]) * 10 + DigitValue(s[|s| - 1])
  }

  /** The shortest decimal digit string of `n`. */
  function NatToDigits(n: nat): (s: string)
    ensures IsDigits(s)
    decreases n
  {
    if n < 10 then [DigitChar(n)] else NatToDigits(n / 10) + [DigitChar(n % 10)]
  }

  /** The decimal text of an integer, with a leading '-' when negative. */
  function IntToString(n: int): (s: string)
    ensures IsSignedDigits(s)
  {
    if n < 0 then
      var s := "-" + NatToDigits(-n);
      assert s[1..] == NatToDigits(-n);
      s
    else NatToDigits(n)
  }

  /** Conversion of a form value with `int(...)`: None when the text is not an integer literal. */
  function ParseInt(s: string): (r: Option<int>)
    ensures r.Some? <==> IsIntLiteral(s)
  {
    if !IsIntLiteral(s) then None
    else if IsDigits(s) then Some(DigitsValue(s))
    else if s[0] == '-' then Some(-(DigitsValue(s[1..]) as int))
    else Some(DigitsValue(s[1..]))
  }

  /** Reading back the digits of a natural number gives the number. */
  lemma {:induction false} DigitsRoundTrip(n: nat)
    ensures DigitsValue(NatToDigits(n)) == n
    decreases n
  {
    if n >= 10 {
      var s := NatToDigits(n);
      DigitsRoundTrip(n / 10);
      assert s[..|s| - 1] == NatToDigits(n / 10);
    }
  }

  /** Parsing the decimal text of an integer of at most `MaxIntDigits` digits yields that integer. */
  lemma ParseIntRoundTrip(n: int)
    requires |NatToDigits(if n < 0 then -n else n)| <= MaxIntDigits
    ensures ParseInt(IntToString(n)) == Some(n)
  {
    if n < 0 {
      DigitsRoundTrip(-n);
      assert IntToString(n)[1..] == NatToDigits(-n);
    } else {
      DigitsRoundTrip(n);
    }
  }

  /** A literal of 4301 zeros and a five exceeds the digit limit and is rejected. */
  lemma LongLiteralRejected()
    ensures ParseInt(seq(4301, _ => '0') + "5") == None
  {
  }

  /** The private flag: set exactly for the values 'true' and 'on'. */
  function PrivateFlag(value: string): (b: bool)
  {
    value == "true" || value == "on"
  }

  /**
   * The ttl in days. Presence is tested under the key 'ttlDays' but the
   * value is read from the key 'ttl_days'.
   */
  function TtlDays(form: FormData): (r: Result<int, FormError>)
    ensures "ttlDays" !in form ==> r == Success(DefaultTtlDays)
    ensures "ttlDays" in form && "ttl_days" !in form ==> r == Failure(MissingField("ttl_days"))
    ensures "ttlDays" in form && "ttl_days" in form ==>
      (r.Success? <==> IsIntLiteral(form["ttl_days"]))
      && (r.Success? ==> ParseInt(form["ttl_days"]) == Some(r.value))
      && (r.Failure? ==> r.error == NotAnInteger("ttl_days"))
  {
    if "ttlDays" !in form then Success(DefaultTtlDays)
    else if "ttl_days" !in form then Failure(MissingField("ttl_days"))
    else match ParseInt(form["ttl_days"])
      case Some(n) => Success(n)
      case None => Failure(NotAnInteger("ttl_days"))
  }

  /** The visit limit, read from 'max_visits' when present. */
  function MaxVisits(form: FormData): (r: Result<int, FormError>)
    ensures "max_visits" !in form ==> r == Success(DefaultMaxVisits)
    ensures "max_visits" in form ==>
      (r.Success? <==> IsIntLiteral(form["max_visits"]))
      && (r.Success? ==> ParseInt(form["max_visits"]) == Some(r.value))
      && (r.Failure? ==> r.error == NotAnInteger("max_visits"))
  {
    if "max_visits" !in form then Success(DefaultMaxVisits)
    else match ParseInt(form["max_visits"])
      case Some(n) => Success(n)
      case None => Failure(NotAnInteger("max_visits"))
  }

  /** The ttl can be read: absent 'ttlDays', or 'ttl_days' present and an integer. */
  predicate TtlReadable(form: FormData) {
    "ttlDays" in form ==> "ttl_days" in form && IsIntLiteral(form["ttl_days"])
  }

  /** The visit limit can be read: absent, or an integer. */
  predicate MaxVisitsReadable(form: FormData) {
    "max_visits" in form ==> IsIntLiteral(form["max_visits"])
  }

  /** The form is accepted by the insert route. */
  predicate Accepted(form: FormData) {
    && "private" in form
    && TtlReadable(form)
    && MaxVisitsReadable(form)
    && "note" in form
  }

  /**
   * The fields read by the insert route, in the order it reads them:
   * 'private', the ttl, 'max_visits', then 'note'. The first failing read
   * decides the error.
   */
  function ParseForm(form: FormData): (r: Result<InsertParams, FormError>)
    ensures r.Success? <==> Accepted(form)
    ensures "private" !in form ==> r == Failure(MissingField("private"))
    ensures "private" in form && "ttlDays" in form && "ttl_days" !in form ==>
      r == Failure(MissingField("ttl_days"))
    ensures "private" in form && "ttlDays" in form && "ttl_days" in form && !IsIntLiteral(form["ttl_days"]) ==>
      r == Failure(NotAnInteger("ttl_days"))
    ensures "private" in form && TtlReadable(form) && !MaxVisitsReadable(form) ==>
      r == Failure(NotAnInteger("max_visits"))
    ensures "private" in form && TtlReadable(form) && MaxVisitsReadable(form) && "note" !in form ==>
      r == Failure(MissingField("note"))
    ensures r.Success? ==> (r.value.isPrivate <==> form["private"] == "true" || form["private"] == "on")
    ensures r.Success? && "ttlDays" !in form ==> r.value.ttlDays == DefaultTtlDays
    ensures r.Success? && "ttlDays" in form ==> ParseInt(form["ttl_days"]) == Some(r.value.ttlDays)
    ensures r.Success? && "max_visits" !in form ==> r.value.maxVisits == DefaultMaxVisits
    ensures r.Success? && "max_visits" in form ==> ParseInt(form["max_visits"]) == Some(r.value.maxVisits)
    ensures r.Success? ==> r.value.note == form["note"]
  {
    if "private" !in form then Failure(MissingField("private"))
    else
      var isPrivate := PrivateFlag(form["private"]);
      match TtlDays(form)
      case Failure(e) => Failure(e)
      case Success(ttl) =>
        match MaxVisits(form)
        case Failure(e) => Failure(e)
        case Success(visits) =>
          if "note" !in form then Failure(MissingField("note"))
          else Success(InsertParams(isPrivate, ttl, visits, form["note"]))
  }

  /**
   * Only the presence of 'ttlDays' matters, never its value; and without
   * 'ttlDays' the value under 'ttl_days' is never read.
   */
  lemma TtlDaysValueIgnored(form: FormData, v: string, w: string)
    ensures ParseForm(form["ttlDays" := v]) == ParseForm(form["ttlDays" := w])
    ensures "ttlDays" !in form ==> ParseForm(form["ttl_days" := v]) == ParseForm(form["ttl_days" := w])
  {
  }
}
