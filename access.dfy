/**
 * The access policy of the HTTP layer: the three guards that run before a
 * handler, JavaScript's `parseInt` as the guards apply it to a path segment,
 * and the scope of the activity-log listing.
 */
module Access {
  import opened Wrappers
  import opened Text
  import opened Schema

  /** The authenticated user of a request, as the session deserialises it. */
  datatype Principal = Principal(id: int, role: Role, subsidiaryId: Option<int>)

  /** What a guard decides: run the handler, or answer with a status and a message. */
  datatype Decision = Allow | Deny(status: int, message: string)

  // ---------------------------------------------------------------------------
  // parseInt

  /** A JavaScript number as `parseInt` can produce it. */
  datatype ParsedInt = Int(value: int) | NaN

  /** Drops the leading white space, as `parseInt` does first. */
  function TrimStart(s: string): (r: string)
    ensures |r| <= |s| && r == s[|s| - |r|..]
    ensures |r| == 0 || !IsSpace(r[0])
    ensures forall i :: 0 <= i < |s| - |r| ==> IsSpace(s[i])
  {
    if |s| > 0 && IsSpace(s[0]) then TrimStart(s[1..]) else s
  }

  predicate IsHexLetter(c: char) {
    'a' <= c <= 'f' || 'A' <= c <= 'F'
  }

  /** A digit of the radix; `parseInt` without a radix reads base 10 or, after "0x", base 16. */
  predicate IsRadixDigit(c: char, hex: bool) {
    IsDigit(c) || (hex && IsHexLetter(c))
  }

  function DigitValue(c: char, hex: bool): (v: nat)
    requires IsRadixDigit(c, hex)
    ensures v < (if hex then 16 else 10)
  {
    if IsDigit(c) then c as int - '0' as int
    else if 'a' <= c <= 'f' then c as int - 'a' as int + 10
    else c as int - 'A' as int + 10
  }

  /** The length of the longest prefix of `s` made of digits of the radix. */
  function DigitRun(s: string, hex: bool): (n: nat)
    ensures n <= |s|
    ensures forall i :: 0 <= i < n ==> IsRadixDigit(s[i], hex)
    ensures n == |s| || !IsRadixDigit(s[n], hex)
  {
    if |s| > 0 && IsRadixDigit(s[0], hex) then 1 + DigitRun(s[1..], hex) else 0
  }

  function RadixValue(ds: string, hex: bool): nat
    requires forall i :: 0 <= i < |ds| ==> IsRadixDigit(ds[i], hex)
  {
    if |ds| == 0 then 0
    else RadixValue(ds[..|ds| - 1], hex) * (if hex then 16 else 10) + DigitValue(ds[|ds| - 1], hex)
  }

  /** The digits of the radix at the head of `v`, or NaN when there are none. */
  function ParseDigits(v: string, hex: bool): (r: ParsedInt)
    ensures r.Int? ==> r.value >= 0
  {
    var n := DigitRun(v, hex);
    if n == 0 then NaN else Int(RadixValue(v[..n], hex))
  }

  /** After the sign: "0x" or "0X" switches to base 16. */
  function ParseUnsigned(u: string): (r: ParsedInt)
    ensures r.Int? ==> r.value >= 0
  {
    if |u| >= 2 && u[0] == '0' && (u[1] == 'x' || u[1] == 'X') then ParseDigits(u[2..], true)
    else ParseDigits(u, false)
  }

  function Negate(x: ParsedInt): ParsedInt {
    if x.Int? then Int(-x.value) else NaN
  }

  /**
   * `parseInt(s)` with no radix: skip white space, read an optional sign and an
   * optional "0x"/"0X" prefix, then the longest run of digits; no digit at all
   * gives NaN, and whatever follows the run is ignored.
   */
  function ParseInt(s: string): ParsedInt {
    var t := TrimStart(s);
    if |t| > 0 && t[0] == '-' then Negate(ParseUnsigned(t[1..]))
    else if |t| > 0 && t[0] == '+' then ParseUnsigned(t[1..])
    else ParseUnsigned(t)
  }

  /** `parseInt` of a route parameter; a missing one is `undefined`, which reads as NaN. */
  function ParseParam(o: Option<string>): ParsedInt {
    if o.Some? then ParseInt(o.value) else NaN
  }

  lemma {:induction false} RadixValueDecimal(ds: string)
    requires AllDigits(ds)
    ensures RadixValue(ds, false) == DigitsValue(ds)
  {
    if |ds| > 0 {
      RadixValueDecimal(ds[..|ds| - 1]);
    }
  }

  /**
   * Decimal digits without a leading zero, then a tail that neither continues
   * the digits nor turns a lone "0" into a hex prefix, read as the digits' value.
   */
  lemma ParseUnsignedDecimal(u: string, tail: string)
    requires |u| >= 1 && AllDigits(u) && !(|u| >= 2 && u[0] == '0')
    requires |tail| == 0 || (!IsDigit(tail[0]) && tail[0] != 'x' && tail[0] != 'X')
    ensures ParseUnsigned(u + tail) == Int(DigitsValue(u))
  {
    var v := u + tail;
    assert !(|v| >= 2 && v[0] == '0' && (v[1] == 'x' || v[1] == 'X'));
    DigitRunPrefix(u, tail);
    assert v[..|u|] == u;
    RadixValueDecimal(u);
  }

  /** Text that starts with a sign or a digit has no white space to skip. */
  lemma TrimStartKeeps(s: string)
    requires |s| > 0 && (IsDigit(s[0]) || s[0] == '-')
    ensures TrimStart(s) == s
  {
    assert !IsSpace(s[0]);
  }

  /** Text that starts with a digit is read without a sign. */
  lemma ParseIntUnsigned(s: string)
    requires |s| > 0 && IsDigit(s[0])
    ensures ParseInt(s) == ParseUnsigned(s)
  {
    TrimStartKeeps(s);
    assert s[0] != '-' && s[0] != '+';
  }

  /** Text that starts with a minus sign and then a digit is read as the negated digits. */
  lemma ParseIntNegative(s: string)
    requires |s| > 1 && s[0] == '-' && IsDigit(s[1])
    ensures ParseInt(s) == Negate(ParseUnsigned(s[1..]))
  {
    TrimStartKeeps(s);
  }

  /** `parseInt(String(n)) === n` for every integer: a path built from an id reads back as that id. */
  lemma ParseIntOfIntToString(n: int)
    ensures ParseInt(IntToString(n)) == Int(n)
  {
    var d := if n < 0 then -n else n;
    var u := NatToString(d);
    ParseUnsignedDecimal(u, "");
    assert u + "" == u;
    DigitsValueOfNatToString(d);
    var s := IntToString(n);
    assert s == if n < 0 then "-" + u else u;
    if n < 0 {
      assert s[1..] == u;
      ParseIntNegative(s);
    } else {
      ParseIntUnsigned(s);
    }
  }

  /** A parameter that does not start with white space, a sign or a digit parses to NaN. */
  lemma NonNumericIsNaN(s: string)
    requires |s| == 0 || (!IsSpace(s[0]) && !IsDigit(s[0]) && s[0] != '-' && s[0] != '+')
    ensures ParseInt(s) == NaN
  {
    assert TrimStart(s) == s;
    assert |s| == 0 || !IsRadixDigit(s[0], false);
    assert DigitRun(s, false) == 0;
    assert ParseUnsigned(s) == ParseDigits(s, false);
  }

  /** Digits followed by anything else read as the digits alone: "12abc" is 12, but "0x1" is 1. */
  lemma ParseIntIgnoresTail(n: nat, tail: string)
    requires |tail| == 0 || (!IsDigit(tail[0]) && tail[0] != 'x' && tail[0] != 'X')
    ensures ParseInt(NatToString(n) + tail) == Int(n)
  {
    var u := NatToString(n);
    var s := u + tail;
    ParseUnsignedDecimal(u, tail);
    DigitsValueOfNatToString(n);
    assert s[0] == u[0];
    ParseIntUnsigned(s);
  }

  lemma {:induction false} DigitRunPrefix(u: string, tail: string)
    requires AllDigits(u)
    requires |tail| == 0 || !IsDigit(tail[0])
    ensures DigitRun(u + tail, false) == |u|
  {
    if |u| > 0 {
      assert (u + tail)[1..] == u[1..] + tail;
      DigitRunPrefix(u[1..], tail);
    }
  }

  // ---------------------------------------------------------------------------
  // Guards

  const Unauthorized := Deny(401, "Unauthorized")
  const Forbidden := Deny(403, "Forbidden")

  /** Lets any authenticated request through. */
  function RequireAuth(p: Option<Principal>): (d: Decision)
    ensures d == Allow <==> p.Some?
    ensures d != Allow ==> d == Unauthorized
  {
    if p.None? then Unauthorized else Allow
  }

  /** Lets only the holding's administrators through; everyone else, signed in or not, gets 403. */
  function RequireMhcAdmin(p: Option<Principal>): (d: Decision)
    ensures d == Allow <==> p.Some? && p.value.role == MhcAdmin
    ensures d != Allow ==> d == Forbidden
  {
    if p.None? || p.value.role != MhcAdmin then Forbidden else Allow
  }

  /** The route parameters the subsidiary guard looks at. */
  datatype PathParams = PathParams(subsidiaryId: Option<string>, id: Option<string>)

  /** `req.params.subsidiaryId || req.params.id`: an empty string is falsy. */
  function SubsidiaryParam(params: PathParams): (r: Option<string>)
    ensures params.subsidiaryId.Some? && params.subsidiaryId.value != "" ==> r == params.subsidiaryId
    ensures params.subsidiaryId.None? || params.subsidiaryId.value == "" ==> r == params.id
  {
    if params.subsidiaryId.Some? && params.subsidiaryId.value != "" then params.subsidiaryId else params.id
  }

  /**
   * Lets through an administrator of the holding, or a user whose subsidiary is
   * the one the path names; NaN equals no subsidiary.
   */
  function RequireSubsidiaryAccess(p: Option<Principal>, params: PathParams): (d: Decision)
    ensures p.None? ==> d == Unauthorized
    ensures d == Allow <==>
      p.Some? && (p.value.role == MhcAdmin ||
                  (p.value.subsidiaryId.Some? && ParseParam(SubsidiaryParam(params)) == Int(p.value.subsidiaryId.value)))
    ensures p.Some? && d != Allow ==> d == Forbidden
  {
    if p.None? then Unauthorized
    else
      var target := ParseParam(SubsidiaryParam(params));
      if p.value.role != MhcAdmin && (p.value.subsidiaryId.None? || target != Int(p.value.subsidiaryId.value))
      then Forbidden
      else Allow
  }

  /** A path that names no number shuts out everyone but the holding's administrators. */
  lemma NaNPathForbidden(p: Principal, params: PathParams)
    requires p.role != MhcAdmin
    requires ParseParam(SubsidiaryParam(params)) == NaN
    ensures RequireSubsidiaryAccess(Some(p), params) == Forbidden
  {
  }

  /** For a numeric path, a non-administrator gets in exactly to their own subsidiary. */
  lemma SubsidiaryPathAccess(p: Principal, sid: int)
    ensures RequireSubsidiaryAccess(Some(p), PathParams(Some(IntToString(sid)), None)) == Allow <==>
      p.role == MhcAdmin || p.subsidiaryId == Some(sid)
  {
    ParseIntOfIntToString(sid);
  }

  // ---------------------------------------------------------------------------
  // Activity-log scope

  /**
   * The subsidiary filter of the activity-log listing: none for the holding's
   * administrators, the caller's own subsidiary otherwise, and none again when
   * that is null or 0 (both falsy).
   */
  function ActivityLogScope(p: Principal): (r: Option<int>)
    ensures p.role == MhcAdmin ==> r.None?
    ensures p.role != MhcAdmin && p.subsidiaryId.Some? && p.subsidiaryId.value != 0 ==> r == p.subsidiaryId
    ensures p.subsidiaryId.None? ==> r.None?
    ensures r.Some? ==> r.value != 0
  {
    if p.role == MhcAdmin then None
    else if p.subsidiaryId.Some? && p.subsidiaryId.value != 0 then p.subsidiaryId
    else None
  }
}
