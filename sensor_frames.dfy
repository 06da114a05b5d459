/**
 * The text frames a force sensor sends over its notify characteristic:
 *
 *   Time:<int>,V1:<num>,V2:<num>,V3:<num>,V4:<num>
 *
 * where `<int>` is an optional minus sign and one or more digits and
 * `<num>` is an `<int>` optionally followed by a point and one or more
 * digits. The reader matches this grammar at the start of the stripped
 * line (anything after the last number is accepted and ignored) and keeps
 * only the V3 field as the raw reading.
 *
 * `ParseFrame` is a scanner written for the grammar; `Render` prints a
 * frame. The lemmas prove the two are inverse: a parse result is printed
 * by `Render` as a prefix of the line, and every printed frame, followed
 * by any text that cannot extend its last number, parses back to itself.
 */
module SensorFrames {
  import opened Wrappers
  import opened Text

  /** A decimal numeral as it appears in a frame; `fraction` is empty when there is no point. */
  datatype Numeral = Numeral(negative: bool, whole: string, fraction: string)

  /** The five fields of one frame, in the order they appear. */
  datatype Frame = Frame(time: Numeral, v1: Numeral, v2: Numeral, v3: Numeral, v4: Numeral)

  /** A numeral the grammar can produce; `allowFraction` is false for the time field. */
  predicate WellFormed(n: Numeral, allowFraction: bool)
  {
    && |n.whole| > 0 && AllDigits(n.whole) && AllDigits(n.fraction)
    && (allowFraction || n.fraction == [])
  }

  predicate WellFormedFrame(f: Frame)
  {
    && WellFormed(f.time, false)
    && WellFormed(f.v1, true) && WellFormed(f.v2, true)
    && WellFormed(f.v3, true) && WellFormed(f.v4, true)
  }

  function FractionText(fraction: string): string
  {
    if fraction == [] then "" else "." + fraction
  }

  /** A numeral printed without its sign. */
  function Magnitude(n: Numeral): string
  {
    n.whole + FractionText(n.fraction)
  }

  function RenderNumeral(n: Numeral): string
  {
    if n.negative then "-" + Magnitude(n) else Magnitude(n)
  }

  /** A field name and its numeral, as in `,V1:12.5`. */
  function Labeled(key: string, n: Numeral): string
  {
    key + RenderNumeral(n)
  }

  /** A field name and whether its number may carry a fractional part. */
  datatype FieldSpec = FieldSpec(key: string, allowFraction: bool)

  /** The fields of a frame in order; only the time is a whole number. */
  const FrameFields: seq<FieldSpec> :=
    [FieldSpec("Time:", false), FieldSpec(",V1:", true), FieldSpec(",V2:", true), FieldSpec(",V3:", true), FieldSpec(",V4:", true)]

  function Numerals(f: Frame): (r: seq<Numeral>)
    ensures |r| == |FrameFields|
  {
    [f.time, f.v1, f.v2, f.v3, f.v4]
  }

  function FrameOf(nums: seq<Numeral>): Frame
    requires |nums| == |FrameFields|
  {
    Frame(nums[0], nums[1], nums[2], nums[3], nums[4])
  }

  /** Each numeral is well formed for its field. */
  predicate FieldsWellFormed(specs: seq<FieldSpec>, nums: seq<Numeral>)
  {
    && |nums| == |specs|
    && (specs != [] ==> WellFormed(nums[0], specs[0].allowFraction) && FieldsWellFormed(specs[1..], nums[1..]))
  }

  lemma FrameFieldsWellFormed(f: Frame)
    requires WellFormedFrame(f)
    ensures FieldsWellFormed(FrameFields, Numerals(f))
  {
    var nums := Numerals(f);
    assert FieldsWellFormed(FrameFields[5..], nums[5..]);
    assert FieldsWellFormed(FrameFields[4..], nums[4..]) by { assert FrameFields[4..][1..] == FrameFields[5..]; }
    assert FieldsWellFormed(FrameFields[3..], nums[3..]) by { assert FrameFields[3..][1..] == FrameFields[4..]; }
    assert FieldsWellFormed(FrameFields[2..], nums[2..]) by { assert FrameFields[2..][1..] == FrameFields[3..]; }
    assert FieldsWellFormed(FrameFields[1..], nums[1..]) by { assert FrameFields[1..][1..] == FrameFields[2..]; }
  }

  lemma FieldsFrame(nums: seq<Numeral>)
    requires FieldsWellFormed(FrameFields, nums)
    ensures WellFormedFrame(FrameOf(nums)) && Numerals(FrameOf(nums)) == nums
  {
    assert FieldsWellFormed(FrameFields[1..], nums[1..]);
    assert FieldsWellFormed(FrameFields[2..], nums[2..]) by { assert FrameFields[1..][1..] == FrameFields[2..]; }
    assert FieldsWellFormed(FrameFields[3..], nums[3..]) by { assert FrameFields[2..][1..] == FrameFields[3..]; }
    assert FieldsWellFormed(FrameFields[4..], nums[4..]) by { assert FrameFields[3..][1..] == FrameFields[4..]; }
  }

  /** Each field printed as its name and its numeral, one after the other. */
  function RenderFields(specs: seq<FieldSpec>, nums: seq<Numeral>): string
    requires |nums| == |specs|
  {
    if specs == [] then "" else Labeled(specs[0].key, nums[0]) + RenderFields(specs[1..], nums[1..])
  }

  function Render(f: Frame): string
  {
    RenderFields(FrameFields, Numerals(f))
  }

  /** Every field name after the first starts with a character that ends the number before it. */
  predicate LaterKeysStop(specs: seq<FieldSpec>)
  {
    |specs| > 1 ==> && specs[1].key != [] && !IsDigit(specs[1].key[0]) && specs[1].key[0] != '.'
                    && LaterKeysStop(specs[1..])
  }

  /**
   * The text after a numeral does not let the greedy match take more of it:
   * it does not start with a digit, nor (when a fraction may follow and none
   * was taken) with a point followed by a digit.
   */
  predicate Stops(n: Numeral, allowFraction: bool, rest: string)
  {
    rest == [] ||
    (!IsDigit(rest[0]) && !(allowFraction && n.fraction == [] && |rest| >= 2 && rest[0] == '.' && IsDigit(rest[1])))
  }

  /** The length of the longest run of digits at the start of `s`. */
  function DigitRun(s: string): (n: nat)
    ensures n <= |s| && AllDigits(s[..n])
    ensures n == |s| || !IsDigit(s[n])
  {
    if s != [] && IsDigit(s[0]) then
      var m := DigitRun(s[1..]);
      assert s[..1 + m] == [s[0]] + s[1..][..m];
      1 + m
    else 0
  }

  lemma DigitRunOf(d: string, rest: string)
    requires AllDigits(d) && (rest == [] || !IsDigit(rest[0]))
    ensures DigitRun(d + rest) == |d|
  {
    if d != [] {
      assert (d + rest)[1..] == d[1..] + rest;
      DigitRunOf(d[1..], rest);
    } else {
      assert d + rest == rest;
    }
  }

  datatype Scanned = Scanned(num: Numeral, rest: string)

  lemma Assoc(a: string, b: string, c: string)
    ensures (a + b) + c == a + (b + c)
  {
  }

  lemma SplitAt(s: string, i: nat)
    requires i <= |s|
    ensures s == s[..i] + s[i..]
  {
  }

  /** The fraction the greedy match takes from `u`, which starts with a point and a digit. */
  lemma FractionSplit(whole: string, u: string)
    requires |u| >= 2 && u[0] == '.' && IsDigit(u[1])
    ensures var v := u[1..]; var f := DigitRun(v);
      f > 0 && whole + u == Magnitude(Numeral(false, whole, v[..f])) + v[f..]
  {
    var v := u[1..];
    var f := DigitRun(v);
    SplitAt(v, f);
    SplitAt(u, 1);
    assert u == "." + v[..f] + v[f..];
    Assoc(whole, "." + v[..f], v[f..]);
  }

  /** Matches `\d+` (and `(\.\d+)?` after it when `allowFraction`) greedily at the start of `t`. */
  function ScanUnsigned(t: string, allowFraction: bool): Option<Scanned>
  {
    var d := DigitRun(t);
    if d == 0 then None
    else
      var u := t[d..];
      if allowFraction && |u| >= 2 && u[0] == '.' && IsDigit(u[1]) then
        var v := u[1..];
        var f := DigitRun(v);
        Some(Scanned(Numeral(false, t[..d], v[..f]), v[f..]))
      else
        Some(Scanned(Numeral(false, t[..d], ""), u))
  }

  /** Matches `-?\d+` (and `(\.\d+)?` after it when `allowFraction`) greedily at the start of `s`. */
  function ScanNumeral(s: string, allowFraction: bool): Option<Scanned>
  {
    if s != [] && s[0] == '-' then
      match ScanUnsigned(s[1..], allowFraction)
      case None => None
      case Some(x) => Some(Scanned(x.num.(negative := true), x.rest))
    else
      ScanUnsigned(s, allowFraction)
  }

  /** The text after `literal`, if `s` starts with it. */
  function Expect(literal: string, s: string): (r: Option<string>)
    ensures r.Some? <==> IsPrefix(literal, s)
    ensures r.Some? ==> s == literal + r.value
  {
    if IsPrefix(literal, s) then Some(s[|literal|..]) else None
  }

  /** A field name followed by a numeral. */
  function Field(key: string, s: string, allowFraction: bool): Option<Scanned>
  {
    match Expect(key, s)
    case None => None
    case Some(t) => ScanNumeral(t, allowFraction)
  }

  /**
   * What the unsigned scanner takes is a well-formed numeral printed at the
   * start of `t`, and the text it leaves cannot extend it.
   */
  lemma ScanUnsignedSound(t: string, allowFraction: bool)
    ensures var r := ScanUnsigned(t, allowFraction);
      r.Some? ==> && WellFormed(r.value.num, allowFraction) && !r.value.num.negative
                  && t == Magnitude(r.value.num) + r.value.rest
                  && Stops(r.value.num, allowFraction, r.value.rest)
  {
    var d := DigitRun(t);
    if d != 0 {
      var whole, u := t[..d], t[d..];
      SplitAt(t, d);
      if allowFraction && |u| >= 2 && u[0] == '.' && IsDigit(u[1]) {
        FractionSplit(whole, u);
      } else {
        assert Magnitude(Numeral(false, whole, "")) == whole;
      }
    }
  }

  lemma ScanNumeralSound(s: string, allowFraction: bool)
    ensures var r := ScanNumeral(s, allowFraction);
      r.Some? ==> && WellFormed(r.value.num, allowFraction)
                  && s == RenderNumeral(r.value.num) + r.value.rest
                  && Stops(r.value.num, allowFraction, r.value.rest)
  {
    if s != [] && s[0] == '-' {
      ScanUnsignedSound(s[1..], allowFraction);
      match ScanUnsigned(s[1..], allowFraction)
      case None =>
      case Some(x) =>
        var n := x.num.(negative := true);
        SplitAt(s, 1);
        assert s[..1] == "-";
        assert Magnitude(n) == Magnitude(x.num);
        Assoc("-", Magnitude(n), x.rest);
    } else {
      ScanUnsignedSound(s, allowFraction);
    }
  }

  /** A field that scans is its name and a well-formed numeral, and the text it leaves cannot extend that numeral. */
  lemma FieldSound(key: string, s: string, allowFraction: bool)
    ensures var r := Field(key, s, allowFraction);
      r.Some? ==> && WellFormed(r.value.num, allowFraction)
                  && s == Labeled(key, r.value.num) + r.value.rest
                  && Stops(r.value.num, allowFraction, r.value.rest)
  {
    match Expect(key, s)
    case None =>
    case Some(t) =>
      ScanNumeralSound(t, allowFraction);
      match ScanNumeral(t, allowFraction)
      case None =>
      case Some(x) =>
        Assoc(key, RenderNumeral(x.num), x.rest);
  }

  /** A printed fraction, followed by text that does not start with a digit, scans back to its digits and that text. */
  lemma FractionRender(fraction: string, rest: string)
    requires fraction != [] && AllDigits(fraction) && (rest == [] || !IsDigit(rest[0]))
    ensures var u := FractionText(fraction) + rest; var v := u[1..];
      && |u| >= 2 && u[0] == '.' && IsDigit(u[1])
      && DigitRun(v) == |fraction| && v[..|fraction|] == fraction && v[|fraction|..] == rest
  {
    var u := FractionText(fraction) + rest;
    assert u == "." + (fraction + rest);
    assert u[1..] == fraction + rest;
    DigitRunOf(fraction, rest);
  }

  lemma ScanUnsignedRender(n: Numeral, allowFraction: bool, rest: string)
    requires WellFormed(n, allowFraction) && Stops(n, allowFraction, rest) && !n.negative
    ensures ScanUnsigned(Magnitude(n) + rest, allowFraction) == Some(Scanned(n, rest))
  {
    var tail := FractionText(n.fraction) + rest;
    var t := n.whole + tail;
    Assoc(n.whole, FractionText(n.fraction), rest);
    assert Magnitude(n) + rest == t;
    DigitRunOf(n.whole, tail);
    assert t[..|n.whole|] == n.whole && t[|n.whole|..] == tail;
    if n.fraction != [] {
      FractionRender(n.fraction, rest);
    } else {
      assert tail == rest;
    }
  }

  /** A well-formed numeral followed by text that stops it scans back to itself and that text. */
  lemma ScanRender(n: Numeral, allowFraction: bool, rest: string)
    requires WellFormed(n, allowFraction) && Stops(n, allowFraction, rest)
    ensures ScanNumeral(RenderNumeral(n) + rest, allowFraction) == Some(Scanned(n, rest))
  {
    var u := n.(negative := false);
    assert Magnitude(u) == Magnitude(n);
    ScanUnsignedRender(u, allowFraction, rest);
    if n.negative {
      Assoc("-", Magnitude(n), rest);
      assert (RenderNumeral(n) + rest)[1..] == Magnitude(n) + rest;
    }
  }

  lemma FieldRender(key: string, n: Numeral, allowFraction: bool, rest: string)
    requires WellFormed(n, allowFraction) && Stops(n, allowFraction, rest)
    ensures Field(key, Labeled(key, n) + rest, allowFraction) == Some(Scanned(n, rest))
  {
    var s := Labeled(key, n) + rest;
    Assoc(key, RenderNumeral(n), rest);
    assert s[..|key|] == key;
    assert s[|key|..] == RenderNumeral(n) + rest;
    ScanRender(n, allowFraction, rest);
  }

  /** The scanned numerals of a run of fields and the text after the last one. */
  datatype Fields = Fields(nums: seq<Numeral>, rest: string)

  /** Matches each field name and its numeral in turn at the start of `s`. */
  function ParseFields(specs: seq<FieldSpec>, s: string): (r: Option<Fields>)
    ensures r.Some? ==> |r.value.nums| == |specs|
  {
    if specs == [] then Some(Fields([], s))
    else
      match Field(specs[0].key, s, specs[0].allowFraction)
      case None => None
      case Some(x) =>
        match ParseFields(specs[1..], x.rest)
        case None => None
        case Some(p) => Some(Fields([x.num] + p.nums, p.rest))
  }

  /** The frame at the start of `line`, if there is one (what matching the frame pattern yields). */
  function ParseFrame(line: string): Option<Frame>
  {
    match ParseFields(FrameFields, line)
    case None => None
    case Some(p) => Some(FrameOf(p.nums))
  }

  /**
   * What the field scanner returns is printed back by `RenderFields` as the
   * start of its input, each numeral is well formed for its field, and the
   * text left over cannot extend the last number.
   */
  lemma {:induction false} ParseFieldsSound(specs: seq<FieldSpec>, s: string)
    ensures var r := ParseFields(specs, s);
      r.Some? ==> && FieldsWellFormed(specs, r.value.nums)
                  && s == RenderFields(specs, r.value.nums) + r.value.rest
                  && (specs != [] ==> Stops(r.value.nums[|specs| - 1], specs[|specs| - 1].allowFraction, r.value.rest))
  {
    if specs != [] {
      match Field(specs[0].key, s, specs[0].allowFraction)
      case None =>
      case Some(x) =>
        FieldSound(specs[0].key, s, specs[0].allowFraction);
        ParseFieldsSound(specs[1..], x.rest);
        match ParseFields(specs[1..], x.rest)
        case None =>
        case Some(p) =>
          var nums := [x.num] + p.nums;
          assert ParseFields(specs, s) == Some(Fields(nums, p.rest));
          assert nums[1..] == p.nums;
          Assoc(Labeled(specs[0].key, x.num), RenderFields(specs[1..], p.nums), p.rest);
          if |specs| > 1 {
            assert nums[|specs| - 1] == p.nums[|specs| - 2];
            assert specs[|specs| - 1] == specs[1..][|specs| - 2];
          }
    }
  }

  lemma StartsWithKey(specs: seq<FieldSpec>, nums: seq<Numeral>, tail: string)
    requires |nums| == |specs| && specs != [] && specs[0].key != []
    ensures var t := RenderFields(specs, nums) + tail; t != [] && t[0] == specs[0].key[0]
  {
    var l := Labeled(specs[0].key, nums[0]);
    assert l[0] == specs[0].key[0];
    Assoc(l, RenderFields(specs[1..], nums[1..]), tail);
  }

  /** The last field of the later fields is the last field. */
  lemma LaterFields(specs: seq<FieldSpec>, nums: seq<Numeral>)
    requires |nums| == |specs| > 1
    ensures nums[1..][|specs| - 2] == nums[|specs| - 1] && specs[1..][|specs| - 2] == specs[|specs| - 1]
  {
  }

  /** The first printed field scans back to its numeral, leaving the later fields and the tail. */
  lemma FirstFieldRender(specs: seq<FieldSpec>, nums: seq<Numeral>, tail: string)
    requires FieldsWellFormed(specs, nums) && LaterKeysStop(specs) && specs != []
    requires |specs| == 1 ==> Stops(nums[0], specs[0].allowFraction, tail)
    ensures Field(specs[0].key, RenderFields(specs, nums) + tail, specs[0].allowFraction)
            == Some(Scanned(nums[0], RenderFields(specs[1..], nums[1..]) + tail))
  {
    var later := RenderFields(specs[1..], nums[1..]);
    Assoc(Labeled(specs[0].key, nums[0]), later, tail);
    assert WellFormed(nums[0], specs[0].allowFraction);
    if |specs| > 1 {
      assert specs[1..][0] == specs[1];
      StartsWithKey(specs[1..], nums[1..], tail);
    } else {
      assert later + tail == tail;
    }
    FieldRender(specs[0].key, nums[0], specs[0].allowFraction, later + tail);
  }

  lemma ParseFieldsCons(specs: seq<FieldSpec>, s: string, x: Scanned, p: Fields)
    requires specs != [] && Field(specs[0].key, s, specs[0].allowFraction) == Some(x)
    requires ParseFields(specs[1..], x.rest) == Some(p)
    ensures ParseFields(specs, s) == Some(Fields([x.num] + p.nums, p.rest))
  {
  }

  /** Printed fields followed by text that stops the last number scan back to the same numerals and that text. */
  lemma {:induction false} ParseFieldsRender(specs: seq<FieldSpec>, nums: seq<Numeral>, tail: string)
    requires FieldsWellFormed(specs, nums) && LaterKeysStop(specs)
    requires specs != [] ==> Stops(nums[|specs| - 1], specs[|specs| - 1].allowFraction, tail)
    ensures ParseFields(specs, RenderFields(specs, nums) + tail) == Some(Fields(nums, tail))
  {
    if specs != [] {
      FirstFieldRender(specs, nums, tail);
      if |specs| > 1 {
        LaterFields(specs, nums);
      }
      var later := RenderFields(specs[1..], nums[1..]) + tail;
      ParseFieldsRender(specs[1..], nums[1..], tail);
      ParseFieldsCons(specs, RenderFields(specs, nums) + tail, Scanned(nums[0], later), Fields(nums[1..], tail));
      assert [nums[0]] + nums[1..] == nums;
    } else {
      assert RenderFields(specs, nums) + tail == tail;
    }
  }

  /** Every field name of a frame after the first starts with a comma, which ends the number before it. */
  lemma FrameKeysStop()
    ensures LaterKeysStop(FrameFields)
  {
    assert LaterKeysStop(FrameFields[4..]);
    assert LaterKeysStop(FrameFields[3..]) by { assert FrameFields[3..][1..] == FrameFields[4..]; }
    assert LaterKeysStop(FrameFields[2..]) by { assert FrameFields[2..][1..] == FrameFields[3..]; }
    assert LaterKeysStop(FrameFields[1..]) by { assert FrameFields[1..][1..] == FrameFields[2..]; }
  }

  /** A well-formed numeral at the start of `s` is always scanned, whatever text follows it. */
  lemma ScanPrefix(n: Numeral, allowFraction: bool, tail: string)
    requires WellFormed(n, allowFraction)
    ensures ScanNumeral(RenderNumeral(n) + tail, allowFraction).Some?
  {
    var t := Magnitude(n) + tail;
    Assoc(n.whole, FractionText(n.fraction), tail);
    assert t[0] == n.whole[0] && IsDigit(t[0]);
    assert DigitRun(t) > 0;
    if n.negative {
      Assoc("-", Magnitude(n), tail);
      assert (RenderNumeral(n) + tail)[1..] == t;
    } else {
      assert RenderNumeral(n) + tail == t;
    }
  }

  /** A field whose name is followed by a well-formed numeral is always scanned. */
  lemma FieldPrefix(key: string, n: Numeral, allowFraction: bool, tail: string)
    requires WellFormed(n, allowFraction)
    ensures Field(key, Labeled(key, n) + tail, allowFraction).Some?
  {
    var s := Labeled(key, n) + tail;
    Assoc(key, RenderNumeral(n), tail);
    assert s[..|key|] == key;
    assert s[|key|..] == RenderNumeral(n) + tail;
    ScanPrefix(n, allowFraction, tail);
  }

  /**
   * Printed fields at the start of `s` are always matched, whatever follows
   * them: the greedy scan may take more digits of the last number, but it
   * never fails.
   */
  lemma {:induction false} ParseFieldsPrefix(specs: seq<FieldSpec>, nums: seq<Numeral>, tail: string)
    requires FieldsWellFormed(specs, nums) && LaterKeysStop(specs)
    ensures ParseFields(specs, RenderFields(specs, nums) + tail).Some?
  {
    if |specs| == 1 {
      assert RenderFields(specs, nums) == Labeled(specs[0].key, nums[0]) + "";
      assert Labeled(specs[0].key, nums[0]) + "" == Labeled(specs[0].key, nums[0]);
      FieldPrefix(specs[0].key, nums[0], specs[0].allowFraction, tail);
    } else if |specs| > 1 {
      var s := RenderFields(specs, nums) + tail;
      var later := RenderFields(specs[1..], nums[1..]) + tail;
      FirstFieldRender(specs, nums, tail);
      ParseFieldsPrefix(specs[1..], nums[1..], tail);
      var p := ParseFields(specs[1..], later).value;
      ParseFieldsCons(specs, s, Scanned(nums[0], later), p);
    }
  }

  /** A line that starts with a printed well-formed frame is matched, whatever follows the frame. */
  lemma ParseFramePrefix(line: string, f: Frame)
    requires WellFormedFrame(f) && IsPrefix(Render(f), line)
    ensures ParseFrame(line).Some?
  {
    var tail := line[|Render(f)|..];
    assert line == Render(f) + tail;
    FrameFieldsWellFormed(f);
    FrameKeysStop();
    ParseFieldsPrefix(FrameFields, Numerals(f), tail);
  }

  /**
   * The frame pattern matches at the start of a line exactly when some
   * well-formed frame is printed there; in particular a line the scanner
   * rejects starts with no frame at all.
   */
  lemma ParseFrameMatches(line: string)
    ensures ParseFrame(line).Some? <==> exists f :: WellFormedFrame(f) && IsPrefix(Render(f), line)
  {
    if ParseFrame(line).Some? {
      ParseFrameSound(line);
    }
    if exists f :: WellFormedFrame(f) && IsPrefix(Render(f), line) {
      var f :| WellFormedFrame(f) && IsPrefix(Render(f), line);
      ParseFramePrefix(line, f);
    }
  }

  /**
   * A parsed frame is well formed, printed by `Render` as the start of the
   * line, and the text after it cannot extend its last number.
   */
  lemma ParseFrameSound(line: string)
    ensures var r := ParseFrame(line);
      r.Some? ==> && WellFormedFrame(r.value)
                  && IsPrefix(Render(r.value), line)
                  && Stops(r.value.v4, true, line[|Render(r.value)|..])
  {
    ParseFieldsSound(FrameFields, line);
    var r := ParseFields(FrameFields, line);
    if r.Some? {
      var p := r.value;
      FieldsFrame(p.nums);
      var f := FrameOf(p.nums);
      assert ParseFrame(line) == Some(f);
      assert Render(f) == RenderFields(FrameFields, p.nums);
      assert line[|Render(f)|..] == p.rest;
      assert f.v4 == p.nums[|FrameFields| - 1] && FrameFields[|FrameFields| - 1].allowFraction;
    }
  }

  /**
   * Round trip: a printed frame, followed by any text that cannot extend its
   * last number, parses back to the same frame.
   */
  lemma ParseRender(f: Frame, tail: string)
    requires WellFormedFrame(f) && Stops(f.v4, true, tail)
    ensures ParseFrame(Render(f) + tail) == Some(f)
  {
    FrameFieldsWellFormed(f);
    FrameKeysStop();
    assert FrameFields[4].allowFraction;
    ParseFieldsRender(FrameFields, Numerals(f), tail);
  }

  /**
   * Together with `ParseFrameSound`, an if-and-only-if: the line parses to
   * `f` exactly when it starts with the printed `f` and the text after it
   * stops the last number.
   */
  lemma ParseFrameComplete(line: string, f: Frame)
    requires WellFormedFrame(f) && IsPrefix(Render(f), line)
    requires Stops(f.v4, true, line[|Render(f)|..])
    ensures ParseFrame(line) == Some(f)
  {
    var tail := line[|Render(f)|..];
    assert line == Render(f) + tail;
    ParseRender(f, tail);
  }

  /** The value of the digits after the point, as a fraction of one. */
  function FractionValue(f: string): (r: real)
    requires AllDigits(f)
    ensures 0.0 <= r < 1.0
  {
    if f == [] then 0.0 else (DigitValue(f[0]) as real + FractionValue(f[1..])) / 10.0
  }

  /** What `float()` reads from a numeral (without rounding to a binary float). */
  function NumeralValue(n: Numeral): (r: real)
    requires WellFormed(n, true)
    ensures n.fraction == [] ==> r == (if n.negative then -(DigitsValue(n.whole) as real) else DigitsValue(n.whole) as real)
    ensures DigitsValue(n.whole) as real <= (if n.negative then -r else r) < DigitsValue(n.whole) as real + 1.0
  {
    var magnitude := DigitsValue(n.whole) as real + FractionValue(n.fraction);
    if n.negative then -magnitude else magnitude
  }

  /** The raw reading a notification carries: the V3 field of the frame at the start of the stripped line. */
  function ReadRaw(line: string): Option<real>
  {
    match ParseFrame(Strip(line))
    case None => None
    case Some(f) =>
      ParsedV3WellFormed(Strip(line));
      Some(NumeralValue(f.v3))
  }

  /** The V3 numeral of a parsed frame is well formed, so it has a value. */
  lemma ParsedV3WellFormed(line: string)
    ensures ParseFrame(line).Some? ==> WellFormed(ParseFrame(line).value.v3, true)
  {
    ParseFrameSound(line);
  }

  lemma LastOf(p: string, q: string)
    requires q != []
    ensures (p + q)[|p + q| - 1] == q[|q| - 1]
  {
  }

  lemma NumeralEndsInDigit(n: Numeral)
    requires WellFormed(n, true)
    ensures var r := RenderNumeral(n); r != [] && IsDigit(r[|r| - 1])
  {
    if n.fraction == [] {
      assert Magnitude(n) == n.whole + "";
    } else {
      LastOf(n.whole + ".", n.fraction);
      Assoc(n.whole, ".", n.fraction);
    }
    if n.negative {
      LastOf("-", Magnitude(n));
    }
  }

  /** Printed fields end in a digit. */
  lemma {:induction false} RenderFieldsLast(specs: seq<FieldSpec>, nums: seq<Numeral>)
    requires FieldsWellFormed(specs, nums) && specs != []
    ensures var r := RenderFields(specs, nums); r != [] && IsDigit(r[|r| - 1])
  {
    var l := Labeled(specs[0].key, nums[0]);
    var later := RenderFields(specs[1..], nums[1..]);
    assert WellFormed(nums[0], specs[0].allowFraction);
    if |specs| == 1 {
      NumeralEndsInDigit(nums[0]);
      LastOf(specs[0].key, RenderNumeral(nums[0]));
      assert later == [];
      assert l + later == l;
    } else {
      RenderFieldsLast(specs[1..], nums[1..]);
      LastOf(l, later);
    }
  }

  lemma RenderStripped(f: Frame)
    requires WellFormedFrame(f)
    ensures Strip(Render(f)) == Render(f)
  {
    var s := Render(f);
    FrameFieldsWellFormed(f);
    RenderFieldsLast(FrameFields, Numerals(f));
    DigitNotSpace(s[|s| - 1]);
    StartsWithKey(FrameFields, Numerals(f), "");
    assert s + "" == s;
    StripUnchanged(s);
  }

  /** A printed frame is read as the value of its V3 field. */
  lemma ReadRawRender(f: Frame)
    requires WellFormedFrame(f)
    ensures ReadRaw(Render(f)) == Some(NumeralValue(f.v3))
  {
    RenderStripped(f);
    assert Render(f) + "" == Render(f);
    ParseRender(f, "");
  }
}
