/** Shared vocabulary: optional values, document ids and instants. */
module Common {

  /** A value that may be absent (JavaScript `undefined`/`null`). */
  datatype Option<T> = None | Some(value: T)

  /** A MongoDB ObjectId, abstracted to a natural number. */
  type Id = nat

  /** A JavaScript `Date`: milliseconds since the epoch. */
  type Instant = int

  /** Milliseconds in one calendar day. */
  const MsPerDay: nat := 86_400_000

  /** True when instant `t` falls inside the calendar day that starts at `day`. */
  predicate InDay(t: Instant, day: Instant)
  {
    day <= t < day + MsPerDay
  }

  /** True when `t` is the first millisecond of a calendar day. */
  predicate IsDayStart(t: Instant)
  {
    t % MsPerDay == 0
  }

  /** `date.setHours(0, 0, 0, 0)`: the start of the calendar day holding `t`. */
  function StartOfDay(t: Instant): (r: Instant)
    ensures IsDayStart(r) && InDay(t, r)
  {
    t - t % MsPerDay
  }

  /** Two day starts whose days both contain `t` are the same day start. */
  lemma DayStartUnique(t: Instant, a: Instant, b: Instant)
    requires IsDayStart(a) && IsDayStart(b) && InDay(t, a) && InDay(t, b)
    ensures a == b
  {
    var q, p := a / MsPerDay, b / MsPerDay;
    assert a == q * MsPerDay;
    assert b == p * MsPerDay;
  }

  /** The range query `{ $gte: StartOfDay(u), $lt: StartOfDay(u) + 1 day }` matches `t`
      exactly when `t` and `u` lie on the same calendar day. */
  lemma SameDayQuery(t: Instant, u: Instant)
    ensures InDay(t, StartOfDay(u)) <==> StartOfDay(t) == StartOfDay(u)
  {
    if InDay(t, StartOfDay(u)) {
      DayStartUnique(t, StartOfDay(t), StartOfDay(u));
    }
  }
  // ---------------------------------------------------------------------------
  // The `trim: true` option of a schema string: JavaScript's `String.prototype.trim`
  // ---------------------------------------------------------------------------

  /** The characters `trim` strips: ECMAScript's WhiteSpace (tab, vertical tab, form
      feed, the byte-order mark and every space separator) and LineTerminator. */
  predicate IsSpace(c: char)
  {
    c == ' ' || c == '\t' || c == '\n' || c == '\r' || c == '\U{000B}' || c == '\U{000C}' ||
    c == '\U{00A0}' || c == '\U{1680}' || ('\U{2000}' <= c <= '\U{200A}') ||
    c == '\U{2028}' || c == '\U{2029}' || c == '\U{202F}' || c == '\U{205F}' ||
    c == '\U{3000}' || c == '\U{FEFF}'
  }

  /** True when every character of `s` is stripped by `trim`. */
  predicate Blank(s: string)
  {
    forall k :: 0 <= k < |s| ==> IsSpace(s[k])
  }

  /** True when `s` neither starts nor ends with a stripped character. */
  predicate Unpadded(s: string)
  {
    s == [] || (!IsSpace(s[0]) && !IsSpace(s[|s| - 1]))
  }

  /** The leading stripped characters removed. */
  function TrimStart(s: string): (r: string)
    ensures |r| <= |s| && r == s[|s| - |r|..]
    ensures Blank(s[..|s| - |r|])
    ensures r != [] ==> !IsSpace(r[0])
    decreases |s|
  {
    if s != [] && IsSpace(s[0]) then TrimStart(s[1..]) else s
  }

  /** The trailing stripped characters removed. */
  function TrimEnd(s: string): (r: string)
    ensures |r| <= |s| && r == s[..|r|]
    ensures Blank(s[|r|..])
    ensures r != [] ==> !IsSpace(r[|r| - 1])
    decreases |s|
  {
    if s != [] && IsSpace(s[|s| - 1]) then TrimEnd(s[..|s| - 1]) else s
  }

  /** `s.trim()`. */
  function Trim(s: string): (r: string)
    ensures |r| <= |s| && Unpadded(r)
  {
    TrimEnd(TrimStart(s))
  }

  /** `trim` applied to an optional field: an absent value stays absent. */
  function TrimOpt(o: Option<string>): (r: Option<string>)
    ensures r.Some? <==> o.Some?
    ensures r.Some? ==> r.value == Trim(o.value) && Unpadded(r.value)
  {
    if o.Some? then Some(Trim(o.value)) else None
  }

  /** A string is trimmed to "" exactly when it is made of stripped characters only;
      this is the case in which a `required` string field fails validation. */
  lemma TrimBlank(s: string)
    ensures Trim(s) == [] <==> Blank(s)
  {
    var t := TrimStart(s);
    if t != [] {
      assert !IsSpace(t[0]) && t[0] == s[|s| - |t|];
      assert !Blank(t);
    }
  }

  /** A string without padding is left as it is. */
  lemma TrimUnpadded(s: string)
    requires Unpadded(s)
    ensures Trim(s) == s
  {
  }

  /** Trimming twice is trimming once. */
  lemma TrimIdempotent(s: string)
    ensures Trim(Trim(s)) == Trim(s)
  {
    TrimUnpadded(Trim(s));
  }

  lemma {:induction false} TrimStartBlankPrefix(p: string, s: string)
    requires Blank(p)
    ensures TrimStart(p + s) == TrimStart(s)
    decreases |p|
  {
    if p == [] {
      assert p + s == s;
    } else {
      assert (p + s)[1..] == p[1..] + s;
      TrimStartBlankPrefix(p[1..], s);
    }
  }

  lemma {:induction false} TrimEndBlankSuffix(s: string, q: string)
    requires Blank(q)
    ensures TrimEnd(s + q) == TrimEnd(s)
    decreases |q|
  {
    if q == [] {
      assert s + q == s;
    } else {
      assert (s + q)[..|s + q| - 1] == s + q[..|q| - 1];
      TrimEndBlankSuffix(s, q[..|q| - 1]);
    }
  }

  lemma {:induction false} TrimStartAppend(s: string, q: string)
    ensures TrimStart(s + q) == if TrimStart(s) == [] then TrimStart(q) else TrimStart(s) + q
    decreases |s|
  {
    if s == [] {
      assert s + q == q;
    } else if IsSpace(s[0]) {
      assert (s + q)[1..] == s[1..] + q;
      TrimStartAppend(s[1..], q);
    }
  }

  /** Stripped characters around a value do not change what is stored: with
      `trim: true`, " 0901 " and "0901" are the same phone number. */
  lemma TrimIgnoresPadding(p: string, s: string, q: string)
    requires Blank(p) && Blank(q)
    ensures Trim(p + s + q) == Trim(s)
  {
    assert p + s + q == p + (s + q);
    TrimStartBlankPrefix(p, s + q);
    TrimStartAppend(s, q);
    if TrimStart(s) == [] {
      TrimBlank(q);
    } else {
      TrimEndBlankSuffix(TrimStart(s), q);
    }
  }
}
