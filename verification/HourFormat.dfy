/** Times of day as text: the normal form "HH:mm", and the order of such texts. */
module HourFormat {
  import opened Texts
  import opened Wrappers

  predicate IsSpace(c: char) {
    c == ' ' || c == '\t' || c == '\n' || c == '\r'
  }

  function TrimStart(s: string): string {
    if s != [] && IsSpace(s[0]) then TrimStart(s[1..]) else s
  }

  function TrimEnd(s: string): string {
    if s != [] && IsSpace(s[|s| - 1]) then TrimEnd(s[..|s| - 1]) else s
  }

  function Trim(s: string): string {
    TrimEnd(TrimStart(s))
  }

  /** Two digits for the minutes, with or without two more, after a colon, for the seconds. */
  predicate IsMinutesPart(rest: string) {
    && |rest| >= 2 && IsDigit(rest[0]) && IsDigit(rest[1])
    && (|rest| == 2 || (|rest| == 5 && rest[2] == ':' && IsDigit(rest[3]) && IsDigit(rest[4])))
  }

  /** "9:00", "09:00" and "09:00:30" all become "09:00"; None stands for the error on any other text. */
  function ToHHmm(v: string): Option<string> {
    var s := Trim(v);
    if |s| >= 2 && IsDigit(s[0]) && s[1] == ':' && IsMinutesPart(s[2..]) then Some("0" + s[..1] + ":" + s[2..4])
    else if |s| >= 3 && IsDigit(s[0]) && IsDigit(s[1]) && s[2] == ':' && IsMinutesPart(s[3..])
        then Some(s[..2] + ":" + s[3..5])
    else None
  }

  /** The normal form: two digits, a colon, two digits. The digits need not name a time of day. */
  predicate IsHHmm(s: string) {
    |s| == 5 && IsDigit(s[0]) && IsDigit(s[1]) && s[2] == ':' && IsDigit(s[3]) && IsDigit(s[4])
  }

  function Digit(c: char): nat
    requires IsDigit(c)
  {
    (c - '0') as nat
  }

  function Hours(s: string): nat
    requires IsHHmm(s)
  {
    10 * Digit(s[0]) + Digit(s[1])
  }

  function Minutes(s: string): nat
    requires IsHHmm(s)
  {
    10 * Digit(s[3]) + Digit(s[4])
  }

  function MinuteOfDay(s: string): nat
    requires IsHHmm(s)
  {
    60 * Hours(s) + Minutes(s)
  }

  /** The conversion yields the normal form, and leaves a text in normal form alone. */
  lemma NormalForm(v: string)
    ensures ToHHmm(v).Some? ==> IsHHmm(ToHHmm(v).value)
    ensures IsHHmm(v) ==> ToHHmm(v) == Some(v)
    ensures ToHHmm(v).Some? ==> ToHHmm(ToHHmm(v).value) == ToHHmm(v)
  {
    if IsHHmm(v) {
      FixedPoint(v);
    }
    if ToHHmm(v).Some? {
      FixedPoint(ToHHmm(v).value);
    }
  }

  lemma FixedPoint(v: string)
    requires IsHHmm(v)
    ensures ToHHmm(v) == Some(v)
  {
    assert TrimStart(v) == v && TrimEnd(v) == v;
    assert v == v[..2] + ":" + v[3..5];
  }

  // ----- Exactly which texts are read, and as what

  predicate AllBlank(s: string) {
    forall i :: 0 <= i < |s| ==> s[i] == ' ' || s[i] == '\t' || s[i] == '\n' || s[i] == '\r'
  }

  /** A colon and two digits. */
  predicate IsTail(s: string) {
    |s| == 3 && s[0] == ':' && '0' <= s[1] <= '9' && '0' <= s[2] <= '9'
  }

  /** The normal form `t`, with or without its leading zero, with or without seconds. */
  predicate Spells(core: string, t: string) {
    && IsHHmm(t) && |core| >= 4
    && (core == t || (t[0] == '0' && core == t[1..])
        || (IsTail(core[|core| - 3..]) &&
              var front := core[..|core| - 3]; front == t || (t[0] == '0' && front == t[1..])))
  }

  lemma {:induction false} StartTrimmed(a: string, s: string)
    requires AllBlank(a) && (s == "" || !IsSpace(s[0]))
    ensures TrimStart(a + s) == s
    decreases |a|
  {
    if a == "" {
      assert a + s == s;
    } else {
      assert (a + s)[1..] == a[1..] + s;
      StartTrimmed(a[1..], s);
    }
  }

  lemma {:induction false} EndTrimmed(s: string, b: string)
    requires AllBlank(b) && (s == "" || !IsSpace(s[|s| - 1]))
    ensures TrimEnd(s + b) == s
    decreases |b|
  {
    if b == "" {
      assert s + b == s;
    } else {
      var n := |b| - 1;
      assert (s + b)[..|s + b| - 1] == s + b[..n];
      EndTrimmed(s, b[..n]);
    }
  }

  lemma {:induction false} StartCut(s: string) returns (a: string)
    ensures AllBlank(a) && s == a + TrimStart(s)
    decreases |s|
  {
    if s != [] && IsSpace(s[0]) {
      var rest := StartCut(s[1..]);
      a := [s[0]] + rest;
      assert s == [s[0]] + s[1..];
    } else {
      a := "";
    }
  }

  lemma {:induction false} EndCut(s: string) returns (b: string)
    ensures AllBlank(b) && s == TrimEnd(s) + b
    decreases |s|
  {
    if s != [] && IsSpace(s[|s| - 1]) {
      var n := |s| - 1;
      var rest := EndCut(s[..n]);
      b := rest + [s[n]];
      assert s == s[..n] + [s[n]];
    } else {
      b := "";
    }
  }

  lemma SpelledIfRead(s: string, t: string)
    requires Trim(s) == s && ToHHmm(s) == Some(t)
    ensures Spells(s, t)
  {
    NormalForm(s);
    if s[1] == ':' {
      assert t[1..] == s[..1] + ":" + s[2..4] && s[..4] == s[..1] + ":" + s[2..4];
      assert |s| == 7 ==> s[4..] == [':', s[5], s[6]] && s[..4] == t[1..];
    } else {
      assert t == s[..2] + ":" + s[3..5] && s[..5] == t;
      assert |s| == 8 ==> s[5..] == [':', s[6], s[7]];
    }
  }

  lemma ReadIfSpelled(s: string, t: string)
    requires Trim(s) == s && Spells(s, t)
    ensures ToHHmm(s) == Some(t)
  {
    var k := if s == t || s == t[1..] then |s| else |s| - 3;
    var front := s[..k];
    assert front == t || (t[0] == '0' && front == t[1..]);
    assert t == [t[0], t[1], ':', t[3], t[4]];
    if front == t {
      assert s[0] == t[0] && s[1] == t[1] && s[2] == ':' && s[3] == t[3] && s[4] == t[4];
      assert s[..2] + ":" + s[3..5] == t;
    } else {
      assert s[0] == t[1] && s[1] == ':' && s[2] == t[3] && s[3] == t[4];
      assert "0" + s[..1] + ":" + s[2..4] == t;
    }
  }

  /** A text is read as `t` exactly if it spells `t` between blanks. */
  lemma ReadExact(v: string, t: string)
    ensures ToHHmm(v) == Some(t) <==>
            exists a, core, b :: AllBlank(a) && AllBlank(b) && v == a + core + b && Spells(core, t)
  {
    var core := Trim(v);
    TrimTwice(v);
    assert ToHHmm(core) == ToHHmm(v);
    if ToHHmm(v) == Some(t) {
      SpelledIfRead(core, t);
      var a := StartCut(v);
      var b := EndCut(TrimStart(v));
      assert v == a + core + b;
    }
    if a, x, b :| AllBlank(a) && AllBlank(b) && v == a + x + b && Spells(x, t) {
      TrimBetween(a, x, b, t);
      ReadIfSpelled(core, t);
    }
  }

  lemma ReadBetween(a: string, core: string, b: string, t: string)
    requires AllBlank(a) && AllBlank(b) && Spells(core, t)
    ensures ToHHmm(a + core + b) == Some(t)
  {
    ReadExact(a + core + b, t);
  }

  /** A one-digit hour is padded, seconds are dropped, and spaces around the text do not matter. */
  lemma OtherSpellings(v: string)
    requires IsHHmm(v)
    ensures v[0] == '0' ==> ToHHmm(v[1..]) == Some(v)
    ensures ToHHmm(v + ":59") == Some(v)
    ensures ToHHmm(" " + v + " ") == Some(v)
  {
    var w, x := v[1..], v + ":59";
    assert x[..|x| - 3] == v && x[|x| - 3..] == ":59";
    assert "" + w + "" == w && "" + x + "" == x;
    if v[0] == '0' {
      ReadBetween("", w, "", v);
    }
    ReadBetween("", x, "", v);
    ReadBetween(" ", v, " ", v);
  }

  lemma TrimBetween(a: string, core: string, b: string, t: string)
    requires AllBlank(a) && AllBlank(b) && Spells(core, t)
    ensures Trim(a + core + b) == core
  {
    assert !IsSpace(core[0]) && !IsSpace(core[|core| - 1]);
    assert a + core + b == a + (core + b) && (core + b)[0] == core[0];
    StartTrimmed(a, core + b);
    EndTrimmed(core, b);
  }

  lemma TrimTwice(v: string)
    ensures Trim(Trim(v)) == Trim(v)
  {
    var s := Trim(v);
    var a := StartCut(v);
    var b := EndCut(TrimStart(v));
    StartClean(v);
    EndClean(TrimStart(v));
    if s != "" {
      assert TrimStart(v)[0] == s[0];
      StartTrimmed("", s);
      EndTrimmed(s, "");
      assert "" + s == s && s + "" == s;
    }
  }

  lemma {:induction false} StartClean(s: string)
    ensures TrimStart(s) == "" || !IsSpace(TrimStart(s)[0])
    decreases |s|
  {
    if s != [] && IsSpace(s[0]) {
      StartClean(s[1..]);
    }
  }

  lemma {:induction false} EndClean(s: string)
    ensures TrimEnd(s) == "" || !IsSpace(TrimEnd(s)[|TrimEnd(s)| - 1])
    decreases |s|
  {
    if s != [] && IsSpace(s[|s| - 1]) {
      EndClean(s[..|s| - 1]);
    }
  }

  /** On normal forms text order is the order by hours, then minutes. */
  lemma TextOrder(a: string, b: string)
    requires IsHHmm(a) && IsHHmm(b)
    ensures TextLess(a, b) <==> Hours(a) < Hours(b) || (Hours(a) == Hours(b) && Minutes(a) < Minutes(b))
  {
    TextLessStep(a, b);
    TextLessStep(a[1..], b[1..]);
    TextLessStep(a[2..], b[2..]);
    TextLessStep(a[3..], b[3..]);
    TextLessStep(a[4..], b[4..]);
    assert a[1..][1..] == a[2..] && a[2..][1..] == a[3..] && a[3..][1..] == a[4..] && a[4..][1..] == [];
    assert b[1..][1..] == b[2..] && b[2..][1..] == b[3..] && b[3..][1..] == b[4..] && b[4..][1..] == [];
  }

  /**
  Text order is the order of the times exactly when no surplus of minutes makes up for the hours
  between them; with minutes below 60 it always is. The format does not enforce that.
  */
  lemma TextOrderIsTimeOrder(a: string, b: string)
    requires IsHHmm(a) && IsHHmm(b)
    ensures (TextLess(a, b) <==> MinuteOfDay(a) < MinuteOfDay(b)) <==>
            && !(Hours(a) < Hours(b) && Minutes(a) >= Minutes(b) + 60 * (Hours(b) - Hours(a)))
            && !(Hours(b) < Hours(a) && Minutes(b) > Minutes(a) + 60 * (Hours(a) - Hours(b)))
    ensures Minutes(a) < 60 && Minutes(b) < 60 ==> (TextLess(a, b) <==> MinuteOfDay(a) < MinuteOfDay(b))
    ensures TextLess("10:75", "11:05") && MinuteOfDay("10:75") > MinuteOfDay("11:05")
  {
    TextOrder(a, b);
    TextOrder("10:75", "11:05");
    assert Hours("10:75") == 10 && Minutes("10:75") == 75 && Hours("11:05") == 11 && Minutes("11:05") == 5;
  }

  // ----- Times given as instants

  /** A text that starts like an ISO date with a time. */
  predicate LooksIso(s: string) {
    && |s| >= 11 && s[4] == '-' && s[7] == '-' && s[10] == 'T'
    && forall i :: 0 <= i < 10 && i != 4 && i != 7 ==> IsDigit(s[i])
  }

  predicate AllDigits(s: string, n: nat) {
    |s| == n && forall i :: 0 <= i < n ==> '0' <= s[i] <= '9'
  }

  predicate IsoParts(s: string, y: string, m: string, d: string, rest: string) {
    AllDigits(y, 4) && AllDigits(m, 2) && AllDigits(d, 2) && s == y + "-" + m + "-" + d + "T" + rest
  }

  /** Four digits, two and two, with hyphens between, and a T. */
  lemma IsoExact(s: string)
    ensures LooksIso(s) <==> exists y, m, d, rest :: IsoParts(s, y, m, d, rest)
  {
    if LooksIso(s) {
      var y, m, d, rest := s[..4], s[5..7], s[8..10], s[11..];
      assert IsoParts(s, y, m, d, rest);
    }
    if y, m, d, rest :| IsoParts(s, y, m, d, rest) {
      assert s[..4] == y && s[5..7] == m && s[8..10] == d;
      forall i | 0 <= i < 10 && i != 4 && i != 7 ensures IsDigit(s[i]) {
        assert i < 4 ==> s[i] == y[i];
        assert 5 <= i < 7 ==> s[i] == m[i - 5];
        assert 8 <= i ==> s[i] == d[i - 8];
      }
    }
  }

  function TwoDigits(n: nat): string
    requires n < 100
  {
    [('0' as int + n / 10) as char, ('0' as int + n % 10) as char]
  }

  /** The time of day in UTC that an instant, in milliseconds, shows. */
  function ClockText(ms: int): string {
    var minute := ms / 60000 % 1440;
    TwoDigits(minute / 60) + ":" + TwoDigits(minute % 60)
  }

  /**
  How requests are read: an ISO text that names an instant gives its time in UTC, any other text goes by the
  pattern.
  */
  function ReadTime(instant: string -> Option<int>, v: string): Option<string> {
    if LooksIso(Trim(v)) && instant(Trim(v)).Some? then Some(ClockText(instant(Trim(v)).value)) else ToHHmm(v)
  }

  /**
  What is read is in normal form, an instant's text names its minute of the UTC day, and an ISO text that
  names no instant is refused.
  */
  lemma ReadTimeNormal(instant: string -> Option<int>, v: string)
    ensures var r := ReadTime(instant, v);
            && (r.Some? ==> IsHHmm(r.value) && ToHHmm(r.value) == r)
            && (LooksIso(Trim(v)) ==>
                  if instant(Trim(v)).Some? then r.Some? && IsHHmm(r.value)
                      && MinuteOfDay(r.value) == instant(Trim(v)).value / 60000 % 1440
                  else r == None)
  {
    NormalForm(v);
    if LooksIso(Trim(v)) && instant(Trim(v)).Some? {
      NormalForm(ClockText(instant(Trim(v)).value));
    }
  }
}
