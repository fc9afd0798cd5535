/**
 Display labels of retention windows and their parser (crates/content-keys/src/lib.rs, `label` and `from_label`).
 */
module RetentionLabels {
  import opened Prelude
  import opened Retention

  /** Unicode `White_Space`, which `str::trim` removes. */
  predicate IsWhitespace(c: char) {
    var n := c as int;
    || 9 <= n <= 13 || n == 0x20 || n == 0x85 || n == 0xA0 || n == 0x1680 || 0x2000 <= n <= 0x200A
    || n == 0x2028 || n == 0x2029 || n == 0x202F || n == 0x205F || n == 0x3000
  }

  function TrimStart(s: string): string {
    if s != [] && IsWhitespace(s[0]) then TrimStart(s[1..]) else s
  }

  function TrimEnd(s: string): string {
    if s != [] && IsWhitespace(s[|s| - 1]) then TrimEnd(s[..|s| - 1]) else s
  }

  function LowerChar(c: char): char {
    if 'A' <= c <= 'Z' then (c as int + 32) as char else c
  }

  function Lower(s: string): string {
    seq(|s|, i requires 0 <= i < |s| => LowerChar(s[i]))
  }

  function Normalize(s: string): string {
    Lower(TrimEnd(TrimStart(s)))
  }

  function Digit(d: int): char
    requires 0 <= d < 10
  {
    (('0' as int) + d) as char
  }

  /** Decimal `Display` of an integer. */
  function Decimal(n: nat): string {
    if n < 10 then [Digit(n)] else Decimal(n / 10) + [Digit(n % 10)]
  }

  /** One step of `checked_mul(10)` and `checked_add(digit)`. */
  function Push(acc: Option<u64>, c: char): Option<u64> {
    if acc.None? || !('0' <= c <= '9') then None
    else
      var n := acc.value * 10 + (c as int - '0' as int);
      if n < U64 then Some(n) else None
  }

  function Accumulate(s: string): Option<u64> {
    if s == [] then Some(0) else Push(Accumulate(s[..|s| - 1]), s[|s| - 1])
  }

  /** `str::parse::<u64>`. */
  function ParseU64(s: string): Option<u64> {
    if s == [] || s == "+" then None
    else if s[0] == '+' then Accumulate(s[1..])
    else Accumulate(s)
  }

  function Label(w: Window): string {
    match w
    case Hours1 => "1 hour"
    case Hours24 => "24 hours"
    case Days7 => "7 days"
    case Days30 => "30 days"
    case Days90 => "90 days"
    case CustomSeconds(seconds) => "custom " + Decimal(seconds) + " seconds"
    case UnlimitedWarned => "warned unlimited / never-lock"
  }

  function ParseCustom(n: string): Option<Window> {
    if !("custom " <= n) then None
    else
      var rest := n[|"custom "|..];
      var cut := |rest| - |" seconds"|;
      if cut < 0 || rest[cut..] != " seconds" then None
      else
        match ParseU64(rest[..cut])
        case None => None
        case Some(s) => Some(CustomSeconds(s))
  }

  function FromLabel(text: string): Option<Window> {
    var n := Normalize(text);
    if n == "1 hour" || n == "1h" || n == "hour" then Some(Hours1)
    else if n == "24 hours" || n == "24h" || n == "1 day" then Some(Hours24)
    else if n == "7 days" || n == "7d" || n == "7 day default" then Some(Days7)
    else if n == "30 days" || n == "30d" then Some(Days30)
    else if n == "90 days" || n == "90d" then Some(Days90)
    else if n == "unlimited" || n == "never-lock" || n == "warned unlimited / never-lock" then Some(UnlimitedWarned)
    else ParseCustom(n)
  }

  // ---- Checked parsing against unbounded arithmetic ----

  predicate AllDigits(s: string) {
    forall i | 0 <= i < |s| :: '0' <= s[i] <= '9'
  }

  function Value(s: string): nat
    requires AllDigits(s)
  {
    if s == [] then 0
    else Value(s[..|s| - 1]) * 10 + (s[|s| - 1] as int - '0' as int)
  }

  /** Stopping at the first overflow accepts exactly the numerals whose unbounded value fits a `u64`. */
  lemma {:induction false} AccumulateExact(s: string)
    ensures Accumulate(s) == if AllDigits(s) && Value(s) < U64 then Some(Value(s)) else None
  {
    if s == [] {
    } else {
      var init, c := s[..|s| - 1], s[|s| - 1];
      AccumulateExact(init);
      assert AllDigits(s) <==> AllDigits(init) && '0' <= c <= '9' by {
        assert s == init + [c];
      }
    }
  }

  lemma {:induction false} DecimalExact(n: nat)
    ensures Decimal(n) != [] && AllDigits(Decimal(n)) && Value(Decimal(n)) == n
  {
    var s := Decimal(n);
    if n >= 10 {
      DecimalExact(n / 10);
      assert s[..|s| - 1] == Decimal(n / 10);
    } else {
      assert s[..0] == "";
    }
  }

  // ---- The round trip ----

  lemma NormalizeFixed(s: string)
    requires s != [] && !IsWhitespace(s[0]) && !IsWhitespace(s[|s| - 1])
    requires forall i | 0 <= i < |s| :: !('A' <= s[i] <= 'Z')
    ensures Normalize(s) == s
  {
  }

  /** No preset spelling starts with a `c`. */
  lemma NotAPreset(text: string)
    requires Normalize(text) != [] && Normalize(text)[0] == 'c'
    ensures FromLabel(text) == ParseCustom(Normalize(text))
  {
  }

  lemma ParseCustomBody(d: string)
    ensures ParseCustom("custom " + d + " seconds")
            == match ParseU64(d) case None => None case Some(s) => Some(CustomSeconds(s))
  {
    var s := "custom " + d + " seconds";
    var rest := s[|"custom "|..];
    assert rest == d + " seconds";
    assert rest[..|d|] == d && rest[|d|..] == " seconds";
  }

  lemma CustomIsNormal(d: string)
    requires AllDigits(d)
    ensures var s := "custom " + d + " seconds"; Normalize(s) == s && s[0] == 'c'
  {
    var head, tail := "custom ", " seconds";
    var s := head + d + tail;
    assert s[|s| - 1] == 's' && s[0] == 'c';
    forall i | 0 <= i < |s| ensures !('A' <= s[i] <= 'Z') {
      if i < |head| {
        assert s[i] == head[i];
      } else if i < |head| + |d| {
        assert s[i] == d[i - |head|];
      } else {
        assert s[i] == tail[i - |head| - |d|];
      }
    }
    NormalizeFixed(s);
  }

  lemma CustomRoundTrip(seconds: u64)
    ensures FromLabel(Label(CustomSeconds(seconds))) == Some(CustomSeconds(seconds))
  {
    var d := Decimal(seconds);
    var s := Label(CustomSeconds(seconds));
    DecimalExact(seconds);
    AccumulateExact(d);
    assert ParseU64(d) == Some(seconds);
    ParseCustomBody(d);
    CustomIsNormal(d);
    NotAPreset(s);
  }

  lemma PresetIsNormal(w: Window)
    requires !w.CustomSeconds?
    ensures Normalize(Label(w)) == Label(w)
  {
    NormalizeFixed(Label(w));
  }

  /** What `from_label` does with each preset's own spelling. */
  lemma PresetIsRead(w: Window, text: string)
    requires !w.CustomSeconds? && Normalize(text) == Label(w)
    ensures FromLabel(text) == Some(w)
  {
  }

  /** Every window, preset or custom, is read back from its own label. */
  lemma LabelRoundTrip(w: Window)
    ensures FromLabel(Label(w)) == Some(w)
  {
    match w
    case CustomSeconds(seconds) => CustomRoundTrip(seconds);
    case _ =>
      PresetIsNormal(w);
      PresetIsRead(w, Label(w));
  }

  /** Distinct windows have distinct labels, also up to surrounding whitespace and letter case. */
  lemma LabelsInjective(w: Window, w': Window)
    requires Normalize(Label(w)) == Normalize(Label(w'))
    ensures w == w'
  {
    LabelRoundTrip(w);
    LabelRoundTrip(w');
  }

  // ---- Everything the parser accepts ----

  predicate Blank(s: string) {
    forall i | 0 <= i < |s| :: IsWhitespace(s[i])
  }

  lemma {:induction false} TrimStartBlank(pre: string, s: string)
    requires Blank(pre)
    ensures TrimStart(pre + s) == TrimStart(s)
  {
    if pre == "" {
      assert pre + s == s;
    } else {
      TrimStartBlank(pre[1..], s);
      assert (pre + s)[1..] == pre[1..] + s;
    }
  }

  lemma {:induction false} TrimEndBlank(s: string, post: string)
    requires Blank(post)
    ensures TrimEnd(s + post) == TrimEnd(s)
  {
    if post == "" {
      assert s + post == s;
    } else {
      TrimEndBlank(s, post[..|post| - 1]);
      assert (s + post)[..|s + post| - 1] == s + post[..|post| - 1];
    }
  }

  /** White space around a text does not matter. */
  lemma NormalizeBlank(pre: string, s: string, post: string)
    requires Blank(pre) && Blank(post) && s != "" && !IsWhitespace(s[0]) && !IsWhitespace(s[|s| - 1])
    ensures Normalize(pre + s + post) == Lower(s)
  {
    assert pre + s + post == pre + (s + post);
    TrimStartBlank(pre, s + post);
    assert (s + post)[0] == s[0];
    TrimEndBlank(s, post);
  }

  /** The letters are lowered one by one, and nothing else is. */
  lemma LowerAlphabet(c: char)
    ensures c in "ABCDEFGHIJKLMNOPQRSTUVWXYZ" ==> LowerChar(c) as int - 'a' as int == c as int - 'A' as int
    ensures !('A' <= c <= 'Z') ==> LowerChar(c) == c
  {
  }

  /** What each preset is also called. */
  function Aliases(w: Window): set<string> {
    match w
    case Hours1 => {"1 hour", "1h", "hour"}
    case Hours24 => {"24 hours", "24h", "1 day"}
    case Days7 => {"7 days", "7d", "7 day default"}
    case Days30 => {"30 days", "30d"}
    case Days90 => {"90 days", "90d"}
    case UnlimitedWarned => {"unlimited", "never-lock", "warned unlimited / never-lock"}
    case CustomSeconds(_) => {}
  }

  lemma HourRead(text: string)
    requires Normalize(text) in Aliases(Hours1)
    ensures FromLabel(text) == Some(Hours1)
  {
    var n := Normalize(text);
    assert n == "1 hour" || n == "1h" || n == "hour";
  }

  lemma DayRead(text: string)
    requires Normalize(text) in Aliases(Hours24)
    ensures FromLabel(text) == Some(Hours24)
  {
    var n := Normalize(text);
    assert n == "24 hours" || n == "24h" || n == "1 day";
    assert |n| == 8 || |n| == 3 || |n| == 5;
  }

  lemma WeekRead(text: string)
    requires Normalize(text) in Aliases(Days7)
    ensures FromLabel(text) == Some(Days7)
  {
    var n := Normalize(text);
    assert n[0] == '7';
  }

  lemma MonthRead(text: string)
    requires Normalize(text) in Aliases(Days30)
    ensures FromLabel(text) == Some(Days30)
  {
    var n := Normalize(text);
    assert n[0] == '3';
  }

  lemma QuarterRead(text: string)
    requires Normalize(text) in Aliases(Days90)
    ensures FromLabel(text) == Some(Days90)
  {
    var n := Normalize(text);
    assert n[0] == '9';
  }

  lemma UnlimitedRead(text: string)
    requires Normalize(text) in Aliases(UnlimitedWarned)
    ensures FromLabel(text) == Some(UnlimitedWarned)
  {
    var n := Normalize(text);
    assert n[0] == 'u' || n[0] == 'n' || n[0] == 'w';
  }

  /** Every alias of a preset is read as that preset. */
  lemma AliasIsRead(w: Window, text: string)
    requires Normalize(text) in Aliases(w)
    ensures FromLabel(text) == Some(w)
  {
    match w
    case Hours1 => HourRead(text);
    case Hours24 => DayRead(text);
    case Days7 => WeekRead(text);
    case Days30 => MonthRead(text);
    case Days90 => QuarterRead(text);
    case UnlimitedWarned => UnlimitedRead(text);
  }

  /** Nothing but its aliases is read as a preset. */
  lemma OnlyAliases(w: Window, text: string)
    requires FromLabel(text) == Some(w) && !w.CustomSeconds?
    ensures Normalize(text) in Aliases(w)
  {
  }

  predicate Numeral(d: string, n: nat) {
    d != "" && AllDigits(d) && Value(d) == n
  }

  /** A `u64` is read from digits, which one plus sign may precede. */
  lemma ParseExact(m: string, n: u64)
    ensures ParseU64(m) == Some(n) <==> exists d :: Numeral(d, n) && (m == d || m == "+" + d)
  {
    AccumulateExact(m);
    if m != "" && m[0] == '+' {
      AccumulateExact(m[1..]);
      assert m == "+" + m[1..];
      assert !AllDigits(m);
      if d :| Numeral(d, n) && (m == d || m == "+" + d) {
        assert m[1..] == d;
      }
      assert ParseU64(m) == Some(n) ==> Numeral(m[1..], n);
    } else {
      assert ParseU64(m) == Some(n) <==> Numeral(m, n);
      assert forall d: string :: ("+" + d)[0] == '+';
    }
  }

  /** Only text between the two words is parsed. */
  lemma ParseCustomExact(t: string, n: u64)
    ensures ParseCustom(t) == Some(CustomSeconds(n))
            <==> exists m :: ParseU64(m) == Some(n) && t == "custom " + m + " seconds"
  {
    if m :| ParseU64(m) == Some(n) && t == "custom " + m + " seconds" {
      ParseCustomBody(m);
    }
    if ParseCustom(t) == Some(CustomSeconds(n)) {
      var rest := t[7..];
      var m := rest[..|rest| - 8];
      assert rest == m + " seconds" && t == "custom " + rest;
      assert t == "custom " + m + " seconds";
      assert ParseU64(m) == Some(n);
    }
  }

  lemma OnlyCustomIsCustom(text: string, n: u64)
    ensures FromLabel(text) == Some(CustomSeconds(n)) <==> ParseCustom(Normalize(text)) == Some(CustomSeconds(n))
  {
    if ParseCustom(Normalize(text)) == Some(CustomSeconds(n)) {
      assert Normalize(text)[0] == 'c';
      NotAPreset(text);
    }
  }

  /** A custom window is read from "custom N seconds", and from nothing else. */
  lemma CustomExact(text: string, n: u64)
    ensures FromLabel(text) == Some(CustomSeconds(n))
            <==> exists m :: ParseU64(m) == Some(n) && Normalize(text) == "custom " + m + " seconds"
  {
    OnlyCustomIsCustom(text, n);
    ParseCustomExact(Normalize(text), n);
  }
}
