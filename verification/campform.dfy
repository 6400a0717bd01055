/** The payload frontend/src/components/CampForm.jsx builds from its text fields. */
module CampForm {
  import opened Wrappers
  import opened Errors
  import opened Text
  import opened Geo
  import opened CampModel
  import CampController

  /** `.map(f => f.trim())`. */
  function TrimAll(ps: seq<string>): (r: seq<string>)
    ensures |r| == |ps|
  {
    if ps == [] then [] else [Trim(ps[0])] + TrimAll(ps[1..])
  }

  /** Each piece is trimmed in place. */
  lemma {:induction false} TrimAllAt(ps: seq<string>)
    ensures forall i :: 0 <= i < |ps| ==> TrimAll(ps)[i] == Trim(ps[i])
  {
    if ps != [] {
      TrimAllAt(ps[1..]);
      forall i | 0 < i < |ps| ensures TrimAll(ps)[i] == Trim(ps[i]) {
        assert TrimAll(ps)[i] == TrimAll(ps[1..])[i - 1];
      }
    }
  }

  /** `.filter(f => f)`: the empty string is the only falsy string. */
  function NonEmpty(ps: seq<string>): (r: seq<string>)
    ensures |r| <= |ps|
    ensures forall x :: x in r <==> x in ps && x != ""
  {
    if ps == [] then []
    else
      assert forall x :: x in ps <==> x == ps[0] || x in ps[1..];
      (if ps[0] != "" then [ps[0]] else []) + NonEmpty(ps[1..])
  }

  /** A facility name as the form sends it. */
  predicate Clean(f: string) {
    f != "" && IsTrimmed(f) && ',' !in f
  }

  lemma TrimKeepsOut(p: string, ch: char)
    requires ch !in p
    ensures ch !in Trim(p)
  {
    var t := Trim(p);
    SliceKeepsOut(p, Lead(p), Lead(p) + |t|, ch);
  }

  lemma SliceKeepsOut(p: string, i: nat, k: nat, ch: char)
    requires ch !in p && i <= k <= |p|
    ensures ch !in p[i..k]
  {
    forall j | 0 <= j < k - i ensures p[i..k][j] != ch {
      assert p[i..k][j] == p[i + j];
    }
  }

  /** The trimmed pieces are exactly the trims of the pieces. */
  lemma TrimAllMembers(pieces: seq<string>)
    ensures forall f :: f in TrimAll(pieces) <==> exists p :: p in pieces && Trim(p) == f
  {
    var trimmed := TrimAll(pieces);
    TrimAllAt(pieces);
    forall f | f in trimmed ensures exists p :: p in pieces && Trim(p) == f {
      var i :| 0 <= i < |trimmed| && trimmed[i] == f;
      assert pieces[i] in pieces;
    }
    forall p | p in pieces ensures Trim(p) in trimmed {
      var i :| 0 <= i < |pieces| && pieces[i] == p;
      assert trimmed[i] == Trim(p);
    }
  }

  /** Trimming adds no character. */
  lemma TrimAllKeepsOut(pieces: seq<string>, ch: char)
    requires forall i :: 0 <= i < |pieces| ==> ch !in pieces[i]
    ensures forall i :: 0 <= i < |pieces| ==> ch !in TrimAll(pieces)[i]
  {
    TrimAllAt(pieces);
    forall i | 0 <= i < |pieces| ensures ch !in TrimAll(pieces)[i] {
      TrimKeepsOut(pieces[i], ch);
    }
  }

  /** The facilities field: comma-separated names, each trimmed, blanks dropped. */
  function ParseFacilities(s: string): (fs: seq<string>)
    ensures s == "" ==> fs == []
    ensures |fs| <= Count(s, ',') + 1
    ensures forall i :: 0 <= i < |fs| ==> Clean(fs[i])
    ensures forall f :: f in fs <==> f != "" && exists p :: p in Split(s, ',') && Trim(p) == f
  {
    if s == "" then []
    else
      var pieces := Split(s, ',');
      TrimAllMembers(pieces);
      TrimAllKeepsOut(pieces, ',');
      var r := NonEmpty(TrimAll(pieces));
      assert forall i :: 0 <= i < |r| ==> r[i] in TrimAll(pieces);
      r
  }

  lemma {:induction false} TrimAllAppend(a: seq<string>, b: seq<string>)
    ensures TrimAll(a + b) == TrimAll(a) + TrimAll(b)
  {
    if a == [] {
      assert a + b == b;
    } else {
      var h := [Trim(a[0])];
      HeadOfAppend(a, b);
      TrimAllAppend(a[1..], b);
      calc {
        TrimAll(a + b);
        h + TrimAll(a[1..] + b);
        h + (TrimAll(a[1..]) + TrimAll(b));
        (h + TrimAll(a[1..])) + TrimAll(b);
        TrimAll(a) + TrimAll(b);
      }
    }
  }

  lemma {:induction false} NonEmptyAppend(a: seq<string>, b: seq<string>)
    ensures NonEmpty(a + b) == NonEmpty(a) + NonEmpty(b)
  {
    if a != [] {
      assert (a + b)[0] == a[0];
      assert (a + b)[1..] == a[1..] + b;
      NonEmptyAppend(a[1..], b);
    } else {
      assert a + b == b;
    }
  }

  /** The guard on the empty field changes nothing: an empty field splits into
      one blank piece, which the filter drops. */
  lemma ParseFacilitiesPieces(s: string)
    ensures ParseFacilities(s) == NonEmpty(TrimAll(Split(s, ',')))
  {
    if s == "" {
      assert TrimStart("") == "" && TrimEnd("") == "";
      assert TrimAll([""]) == [""];
    }
  }

  /** The names of a comma-joined field are the names of each side, in order. */
  lemma ParseFacilitiesConcat(a: string, b: string)
    ensures ParseFacilities(a + ([','] + b)) == ParseFacilities(a) + ParseFacilities(b)
  {
    ParseFacilitiesPieces(a + ([','] + b));
    ParseFacilitiesPieces(a);
    ParseFacilitiesPieces(b);
    SplitConcat(a, b, ',');
    TrimAllAppend(Split(a, ','), Split(b, ','));
    NonEmptyAppend(TrimAll(Split(a, ',')), TrimAll(Split(b, ',')));
  }

  /** A field without commas is one name, trimmed, or none when it is blank. */
  lemma ParseFacilitiesPiece(p: string)
    requires ',' !in p
    ensures ParseFacilities(p) == if Trim(p) == "" then [] else [Trim(p)]
  {
    ParseFacilitiesPieces(p);
    SplitJoin([p], ',');
    assert Join([p], ',') == p;
    assert TrimAll([p]) == [Trim(p)];
  }

  lemma TrimAllClean(fs: seq<string>)
    requires forall i :: 0 <= i < |fs| ==> Clean(fs[i])
    ensures TrimAll(fs) == fs
  {
    TrimAllAt(fs);
    forall i | 0 <= i < |fs| ensures Trim(fs[i]) == fs[i] {
      TrimOfTrimmed(fs[i]);
    }
  }

  lemma NonEmptyClean(fs: seq<string>)
    requires forall i :: 0 <= i < |fs| ==> fs[i] != ""
    ensures NonEmpty(fs) == fs
  {
  }

  /** Facility names that are clean come back, in order, from their comma-joined form. */
  lemma ParseFacilitiesJoin(fs: seq<string>)
    requires forall i :: 0 <= i < |fs| ==> Clean(fs[i])
    ensures ParseFacilities(Join(fs, ',')) == fs
  {
    if fs != [] {
      var s := Join(fs, ',');
      SplitJoin(fs, ',');
      assert s != "" by {
        if |fs| > 1 { assert |s| >= |fs[0]|; }
      }
      TrimAllClean(fs);
      NonEmptyClean(fs);
    }
  }

  /** The value of a digit character in bases up to 36, or 36 for any other character. */
  function DigitValue(ch: char): (d: nat)
    ensures d <= 36
  {
    if '0' <= ch <= '9' then ch as int - '0' as int
    else if 'a' <= ch <= 'z' then ch as int - 'a' as int + 10
    else if 'A' <= ch <= 'Z' then ch as int - 'A' as int + 10
    else 36
  }

  /** Length of the longest prefix of `s` made of digits of the radix. */
  function DigitRun(s: string, radix: nat): (n: nat)
    ensures n <= |s|
    ensures forall i :: 0 <= i < n ==> DigitValue(s[i]) < radix
    ensures n < |s| ==> DigitValue(s[n]) >= radix
  {
    if s == [] || DigitValue(s[0]) >= radix then 0 else 1 + DigitRun(s[1..], radix)
  }

  /** The number a run of digits denotes, most significant first. */
  function ValueOf(digits: string, radix: nat): nat {
    if digits == [] then 0
    else ValueOf(digits[..|digits| - 1], radix) * radix + DigitValue(digits[|digits| - 1])
  }

  function HasHexPrefix(s: string): bool {
    |s| >= 2 && s[0] == '0' && (s[1] == 'x' || s[1] == 'X')
  }

  /** The digits at the start of `body`, read in the radix; `None` when there are none. */
  function Digits(body: string, radix: nat): Option<int> {
    var n := DigitRun(body, radix);
    if n == 0 then None else Some(ValueOf(body[..n], radix))
  }

  /** An unsigned numeral: base 16 after `0x` or `0X`, otherwise base 10. */
  function Magnitude(u: string): Option<int> {
    if HasHexPrefix(u) then Digits(u[2..], 16) else Digits(u, 10)
  }

  /** An optional sign, then a numeral. */
  function Signed(t: string): Option<int> {
    var negative := t != [] && t[0] == '-';
    var u := if t != [] && (t[0] == '-' || t[0] == '+') then t[1..] else t;
    var m := Magnitude(u);
    if m.None? then None
    else if negative then Some(-m.value)
    else m
  }

  /** JavaScript `parseInt(s)` with no radix, on values inside the exact integer
      range: leading white space is skipped, then a signed numeral is read for as
      long as its digits last. `None` is NaN. */
  function ParseInt(s: string): (r: Option<int>)
    ensures r.Some? ==> var t := TrimStart(s);
              && t != []
              && (DigitValue(t[0]) < 10 || t[0] == '-' || t[0] == '+')
              && (t[0] == '-' ==> r.value <= 0)
              && (t[0] != '-' ==> r.value >= 0)
  {
    SignedSign(TrimStart(s));
    Signed(TrimStart(s))
  }

  /** A numeral starts with a digit and denotes a non-negative number. */
  lemma MagnitudeStart(u: string)
    ensures Magnitude(u).Some? ==> u != [] && DigitValue(u[0]) < 10 && Magnitude(u).value >= 0
  {
    if !HasHexPrefix(u) && DigitRun(u, 10) > 0 {
      assert DigitValue(u[0]) < 10;
    }
  }

  /** What a signed numeral starts with, and the sign of what it denotes. */
  lemma SignedSign(t: string)
    ensures var r := Signed(t);
            r.Some? ==>
              && t != []
              && (DigitValue(t[0]) < 10 || t[0] == '-' || t[0] == '+')
              && (t[0] == '-' ==> r.value <= 0)
              && (t[0] != '-' ==> r.value >= 0)
  {
    var u := if t != [] && (t[0] == '-' || t[0] == '+') then t[1..] else t;
    MagnitudeStart(u);
  }

  /** `parseInt(x) || 0`: NaN (and zero) give zero. */
  function CountOrZero(s: string): (n: int)
    ensures ParseInt(s).None? ==> n == 0
    ensures ParseInt(s).Some? ==> n == ParseInt(s).value
  {
    match ParseInt(s)
    case None => 0
    case Some(v) => v
  }

  function DigitChar(d: nat): (ch: char)
    requires d < 10
    ensures DigitValue(ch) == d
  {
    ('0' as int + d) as char
  }

  /** The decimal numeral of `n`, as a number input holds it. */
  function Decimal(n: nat): (s: string)
    ensures s != []
    ensures forall i :: 0 <= i < |s| ==> '0' <= s[i] <= '9'
    ensures n >= 10 ==> s[0] != '0'
  {
    if n < 10 then [DigitChar(n)] else Decimal(n / 10) + [DigitChar(n % 10)]
  }

  lemma {:induction false} ValueOfDecimal(n: nat)
    ensures ValueOf(Decimal(n), 10) == n
  {
    if n >= 10 {
      var s := Decimal(n);
      assert s[..|s| - 1] == Decimal(n / 10);
      ValueOfDecimal(n / 10);
    }
  }

  /** Text that cannot continue a decimal numeral (nor turn a leading `0` into a hex prefix). */
  predicate Stops(rest: string) {
    rest == [] || (DigitValue(rest[0]) >= 10 && rest[0] != 'x' && rest[0] != 'X')
  }

  lemma DigitRunOfNumeral(a: string, rest: string)
    requires forall i :: 0 <= i < |a| ==> DigitValue(a[i]) < 10
    requires Stops(rest)
    ensures DigitRun(a + rest, 10) == |a|
  {
    var s := a + rest;
    assert forall i :: 0 <= i < |a| ==> s[i] == a[i];
    assert |rest| > 0 ==> s[|a|] == rest[0];
  }

  lemma DigitsOfDecimal(n: nat, rest: string)
    requires Stops(rest)
    ensures Digits(Decimal(n) + rest, 10) == Some(n)
  {
    var s := Decimal(n);
    DigitRunOfNumeral(s, rest);
    ValueOfDecimal(n);
    assert (s + rest)[..|s|] == s;
  }

  lemma NoHexPrefix(n: nat, rest: string)
    requires Stops(rest)
    ensures !HasHexPrefix(Decimal(n) + rest)
  {
    var s := Decimal(n);
    var t := s + rest;
    if |t| >= 2 && t[0] == '0' {
      assert n < 10;
      assert t[1] == rest[0];
    }
  }

  lemma TrimStartKeeps(s: string)
    requires s != [] && ('0' <= s[0] <= '9' || s[0] == '-')
    ensures TrimStart(s) == s
  {
  }

  /** A numeral that starts with a digit is read as its magnitude. */
  lemma ReadUnsigned(s: string, v: int)
    requires s != [] && '0' <= s[0] <= '9' && Magnitude(s) == Some(v)
    ensures ParseInt(s) == Some(v)
  {
    TrimStartKeeps(s);
  }

  /** A minus sign negates the magnitude that follows it. */
  lemma ReadNegative(s: string, v: int)
    requires Magnitude(s) == Some(v)
    ensures ParseInt("-" + s) == Some(-v)
  {
    var m := "-" + s;
    assert m[0] == '-' && m[1..] == s;
    TrimStartKeeps(m);
  }

  /** The numeral followed by `rest` is read in base 10 as `n`. */
  lemma MagnitudeOfDecimal(n: nat, rest: string)
    requires Stops(rest)
    ensures Magnitude(Decimal(n) + rest) == Some(n)
  {
    DigitsOfDecimal(n, rest);
    NoHexPrefix(n, rest);
  }

  /** A numeral typed into a number field is read back as its value, whatever
      non-digit text follows it. */
  lemma ParseIntDecimal(n: nat, rest: string)
    requires Stops(rest)
    ensures ParseInt(Decimal(n) + rest) == Some(n as int)
  {
    var s := Decimal(n) + rest;
    MagnitudeOfDecimal(n, rest);
    assert s[0] == Decimal(n)[0];
    ReadUnsigned(s, n);
  }

  /** The same with a minus sign in front. */
  lemma ParseIntNegative(n: nat, rest: string)
    requires Stops(rest)
    ensures ParseInt("-" + (Decimal(n) + rest)) == Some(-(n as int))
  {
    MagnitudeOfDecimal(n, rest);
    ReadNegative(Decimal(n) + rest, n);
  }

  /** Leading white space does not change what is read. */
  lemma ParseIntSkipsSpace(sp: string, s: string)
    requires AllSpace(sp)
    ensures ParseInt(sp + s) == ParseInt(s)
  {
    if sp != [] {
      assert (sp + s)[0] == sp[0];
      assert (sp + s)[1..] == sp[1..] + s;
      assert TrimStart(sp + s) == TrimStart(sp[1..] + s);
      ParseIntSkipsSpace(sp[1..], s);
    } else {
      assert sp + s == s;
    }
  }

  /** The text fields of the form; the four resource counts and the capacity are strings. */
  datatype FormData = FormData(
    name: string,
    address: string,
    capacity: string,
    contactNumber: string,
    managedBy: string,
    food: string,
    water: string,
    medical: string,
    shelter: string,
    facilities: string)

  /** `handleSubmit`: refused until the address has been geocoded; otherwise the
      request body sent to `createCamp`. A NaN capacity is sent as `null`. */
  function Submit(form: FormData, coordinates: Option<Coordinate>): (r: Result<CampController.CampInput, Error>)
    ensures coordinates.None? <==> r == Err(MissingCoordinates)
    ensures r.Ok? ==>
              var p := r.value;
              && p.name == form.name && p.address == form.address
              && p.contactNumber == form.contactNumber
              && p.facilities == ParseFacilities(form.facilities)
              && p.latitude == Some(coordinates.value.latitude)
              && p.longitude == Some(coordinates.value.longitude)
              && p.capacity == ParseInt(form.capacity)
              && p.resources == Resources(CountOrZero(form.food), CountOrZero(form.water),
                                          CountOrZero(form.medical), CountOrZero(form.shelter))
              && (forall i :: 0 <= i < |p.facilities| ==> Clean(p.facilities[i]))
              && p.currentOccupancy.None? && p.status.None?
              && p.managedBy == Some(form.managedBy)
  {
    if coordinates.None? then Err(MissingCoordinates)
    else
      Ok(CampController.CampInput(
        name := form.name,
        address := form.address,
        latitude := Some(coordinates.value.latitude),
        longitude := Some(coordinates.value.longitude),
        capacity := ParseInt(form.capacity),
        currentOccupancy := None,
        status := None,
        resources := Resources(CountOrZero(form.food), CountOrZero(form.water),
                               CountOrZero(form.medical), CountOrZero(form.shelter)),
        facilities := ParseFacilities(form.facilities),
        managedBy := Some(form.managedBy),
        contactNumber := form.contactNumber))
  }

  /** A geocoded form with a name, an address and a positive numeral for the
      capacity produces a request the camp validators accept. */
  lemma SubmitValid(form: FormData, at: Coordinate, n: nat)
    requires Trim(form.name) != "" && form.address != ""
    requires n >= 1 && form.capacity == Decimal(n)
    ensures Submit(form, Some(at)).Ok?
    ensures CampController.ValidCampInput(Submit(form, Some(at)).value)
  {
    ParseIntDecimal(n, []);
    assert Decimal(n) + [] == Decimal(n);
    var p := Submit(form, Some(at)).value;
    assert p.capacity == Some(n);
  }
}
