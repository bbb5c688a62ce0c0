/**
  `parseESP32Data` of the bridge: one status line of the controller, such as

      Suhu: 32.5 C, Mode: Auto, Min: 30, Max: 40, Durasi Heater: 120s, Durasi Pompa: 60s

  becomes a partial record, or `null` when the line carries no temperature. Each field is
  extracted on its own by its own regular expression.

  Temperature, `Min` and `Max` go through `parseFloat` in the source; they are kept here as the
  captured digit-and-dot lexeme, which has the same null / non-null behaviour. The two
  durations go through `parseInt` on a run of decimal digits and are exact naturals.
*/
module Esp32Parser {
  import opened Wrappers
  import opened Regex

  const SuhuPattern: Pattern := Run("Suhu: ", DigitOrDot, " C")
  const ModePattern: Pattern := Choice("Mode: ", ["Auto", "Off"])
  const MinPattern: Pattern := Run("Min: ", DigitOrDot, "")
  const MaxPattern: Pattern := Run("Max: ", DigitOrDot, "")
  const HeaterPattern: Pattern := Run("Durasi Heater: ", Digit, "s")
  const PompaPattern: Pattern := Run("Durasi Pompa: ", Digit, "s")

  /** The object `parseESP32Data` returns; every field but `suhu` may be `null`. */
  datatype Reading = Reading(
    suhu: Option<string>,
    mode: Option<string>,
    min: Option<string>,
    max: Option<string>,
    durasiHeater: Option<nat>,
    durasiPompa: Option<nat>)

  /** A lexeme `[\d.]+` as captured for temperature, `Min` and `Max`. */
  predicate IsNumberLexeme(t: string) {
    t != [] && AllInClass(t, DigitOrDot)
  }

  /** `String.prototype.toLowerCase` on ASCII letters, the only ones `Mode` can capture. */
  function ToLowerCase(t: string): (r: string)
    ensures |r| == |t|
    ensures forall i :: 0 <= i < |r| ==> !('A' <= r[i] <= 'Z')
    ensures forall i :: 0 <= i < |t| && !('A' <= t[i] <= 'Z') ==> r[i] == t[i]
    ensures forall i :: 0 <= i < |t| && 'A' <= t[i] <= 'Z' ==> 'a' <= r[i] <= 'z' && r[i] as int - t[i] as int == 32
  {
    seq(|t|, i requires 0 <= i < |t| => if 'A' <= t[i] <= 'Z' then (t[i] as int + 32) as char else t[i])
  }

  /** Lower-casing twice is lower-casing once. */
  lemma ToLowerCaseIdempotent(t: string)
    ensures ToLowerCase(ToLowerCase(t)) == ToLowerCase(t)
  {
    var r := ToLowerCase(t);
    assert forall i :: 0 <= i < |r| ==> ToLowerCase(r)[i] == r[i];
  }

  /** The two mode tokens, lower-cased as the heater status stores them. */
  lemma ModeTokensLowered()
    ensures ToLowerCase("Auto") == "auto" && ToLowerCase("Off") == "off"
  {
    assert ToLowerCase("Auto")[0] == 'a';
    assert ToLowerCase("Off")[0] == 'o';
  }

  function DigitValue(c: char): nat
    requires IsDigit(c)
  {
    c as int - '0' as int
  }

  function DigitChar(d: nat): char
    requires d < 10
  {
    ('0' as int + d) as char
  }

  function Pow10(n: nat): (r: nat)
    ensures r >= 1
  {
    if n == 0 then 1 else 10 * Pow10(n - 1)
  }

  /** `parseInt` on a run of decimal digits (`\d+`), most significant digit first; the value
      of `k` digits is below 10^k. */
  function ParseInt(t: string): (r: nat)
    requires AllInClass(t, Digit)
    ensures r < Pow10(|t|)
    decreases |t|
  {
    if t == [] then 0 else 10 * ParseInt(t[..|t| - 1]) + DigitValue(t[|t| - 1])
  }

  /** The decimal rendering of `n`: the reference inverse against which `ParseInt` is shown
      to recover every duration exactly. */
  function DecimalString(n: nat): (t: string)
    ensures t != [] && AllInClass(t, Digit)
    decreases n
  {
    if n < 10 then [DigitChar(n)] else DecimalString(n / 10) + [DigitChar(n % 10)]
  }

  /** Durations survive printing and parsing unchanged. */
  lemma {:induction false} ParseIntInvertsDecimalString(n: nat)
    ensures ParseInt(DecimalString(n)) == n
    decreases n
  {
    if n >= 10 {
      var t := DecimalString(n);
      assert t[..|t| - 1] == DecimalString(n / 10);
      ParseIntInvertsDecimalString(n / 10);
    }
  }

  function ParseEsp32Data(data: string): (r: Option<Reading>)
    ensures r.Some? ==> r.value.suhu.Some? && IsNumberLexeme(r.value.suhu.value)
    ensures r.Some? ==> r.value.mode in {None, Some("auto"), Some("off")}
    ensures r.Some? && r.value.min.Some? ==> IsNumberLexeme(r.value.min.value)
    ensures r.Some? && r.value.max.Some? ==> IsNumberLexeme(r.value.max.value)
  {
    var suhuMatch := Find(data, SuhuPattern);
    var modeMatch := Find(data, ModePattern);
    var minMatch := Find(data, MinPattern);
    var maxMatch := Find(data, MaxPattern);
    var heaterMatch := Find(data, HeaterPattern);
    var pompaMatch := Find(data, PompaPattern);
    ModeTokensLowered();
    if suhuMatch.Some? then
      Some(Reading(
        suhu := Some(suhuMatch.value),
        mode := if modeMatch.Some? then Some(ToLowerCase(modeMatch.value)) else None,
        min := minMatch,
        max := maxMatch,
        durasiHeater := if heaterMatch.Some? then Some(ParseInt(heaterMatch.value)) else None,
        durasiPompa := if pompaMatch.Some? then Some(ParseInt(pompaMatch.value)) else None))
    else
      None
  }

  // ---------------------------------------------------------------------------------------
  // What the parser promises, against the regex semantics

  /** `parseESP32Data` returns null exactly when the temperature pattern matches nowhere in the
      line; otherwise the temperature is the lexeme that pattern captures. */
  lemma ParseNullIffNoTemperature(data: string)
    ensures ParseEsp32Data(data).None? <==> forall p: nat, t :: !Matches(data, SuhuPattern, p, t)
    ensures ParseEsp32Data(data).Some? ==>
      LeftmostCapture(data, SuhuPattern, ParseEsp32Data(data).value.suhu.value)
  {
    FindCorrect(data, SuhuPattern);
  }

  /** The mode is `"auto"` or `"off"` after the token of the first `Mode: Auto` or `Mode: Off`,
      and null when neither occurs; the tokens are case-sensitive. */
  lemma ParseMode(data: string, r: Reading)
    requires ParseEsp32Data(data) == Some(r)
    ensures r.mode == Some("auto") <==> LeftmostCapture(data, ModePattern, "Auto")
    ensures r.mode == Some("off") <==> LeftmostCapture(data, ModePattern, "Off")
    ensures r.mode == None <==> forall p: nat, t :: !Matches(data, ModePattern, p, t)
  {
    FindCorrect(data, ModePattern);
    FindIffLeftmostCapture(data, ModePattern, "Auto");
    FindIffLeftmostCapture(data, ModePattern, "Off");
    ModeTokensLowered();
  }

  /** `min` and `max` are each the lexeme their own pattern captures, and null exactly when that
      pattern matches nowhere, whatever the other fields are. */
  lemma ParseSetpoints(data: string, r: Reading)
    requires ParseEsp32Data(data) == Some(r)
    ensures forall t :: r.min == Some(t) <==> LeftmostCapture(data, MinPattern, t)
    ensures r.min == None <==> forall p: nat, t :: !Matches(data, MinPattern, p, t)
    ensures forall t :: r.max == Some(t) <==> LeftmostCapture(data, MaxPattern, t)
    ensures r.max == None <==> forall p: nat, t :: !Matches(data, MaxPattern, p, t)
  {
    FindCorrect(data, MinPattern);
    FindCorrect(data, MaxPattern);
    forall t
      ensures r.min == Some(t) <==> LeftmostCapture(data, MinPattern, t)
      ensures r.max == Some(t) <==> LeftmostCapture(data, MaxPattern, t)
    {
      FindIffLeftmostCapture(data, MinPattern, t);
      FindIffLeftmostCapture(data, MaxPattern, t);
    }
  }

  /** Each duration is the decimal value of the digits its own pattern captures before `s`,
      and null exactly when that pattern matches nowhere. */
  lemma ParseDurations(data: string, r: Reading)
    requires ParseEsp32Data(data) == Some(r)
    ensures r.durasiHeater == None <==> forall p: nat, t :: !Matches(data, HeaterPattern, p, t)
    ensures forall t :: LeftmostCapture(data, HeaterPattern, t) ==>
      AllInClass(t, Digit) && r.durasiHeater == Some(ParseInt(t))
    ensures r.durasiHeater.Some? ==>
      exists t :: LeftmostCapture(data, HeaterPattern, t) && AllInClass(t, Digit) && r.durasiHeater == Some(ParseInt(t))
    ensures r.durasiPompa == None <==> forall p: nat, t :: !Matches(data, PompaPattern, p, t)
    ensures forall t :: LeftmostCapture(data, PompaPattern, t) ==>
      AllInClass(t, Digit) && r.durasiPompa == Some(ParseInt(t))
    ensures r.durasiPompa.Some? ==>
      exists t :: LeftmostCapture(data, PompaPattern, t) && AllInClass(t, Digit) && r.durasiPompa == Some(ParseInt(t))
  {
    FindCorrect(data, HeaterPattern);
    FindCorrect(data, PompaPattern);
    forall t | LeftmostCapture(data, HeaterPattern, t)
      ensures AllInClass(t, Digit) && r.durasiHeater == Some(ParseInt(t))
    {
      FindIffLeftmostCapture(data, HeaterPattern, t);
    }
    forall t | LeftmostCapture(data, PompaPattern, t)
      ensures AllInClass(t, Digit) && r.durasiPompa == Some(ParseInt(t))
    {
      FindIffLeftmostCapture(data, PompaPattern, t);
    }
    var heaterMatch, pompaMatch := Find(data, HeaterPattern), Find(data, PompaPattern);
    if heaterMatch.Some? {
      FindIffLeftmostCapture(data, HeaterPattern, heaterMatch.value);
    }
    if pompaMatch.Some? {
      FindIffLeftmostCapture(data, PompaPattern, pompaMatch.value);
    }
  }

  /** A line holding nothing but a temperature gives a record whose five other fields are null. */
  lemma TemperatureOnly(t: string)
    requires IsNumberLexeme(t)
    ensures ParseEsp32Data("Suhu: " + t + " C") == Some(Reading(Some(t), None, None, None, None, None))
  {
    var s := "Suhu: " + t + " C";
    var k := 6 + |t|;
    assert s[6..k] == t && s[k] == ' ';
    assert LiteralAt(s, 0, "Suhu: ") && LiteralAt(s, k, " C");
    RunEndAt(s, 6, k, DigitOrDot);
    FindAt(s, SuhuPattern, 0, t);
    assert forall q :: 0 <= q < |s| ==> s[q] != 'M' && s[q] != 'D' by {
      forall q | 0 <= q < |s| ensures s[q] != 'M' && s[q] != 'D' {
        if 6 <= q < k {
          assert s[q] == t[q - 6];
        }
      }
    }
    FindAbsentByHead(s, ModePattern);
    FindAbsentByHead(s, MinPattern);
    FindAbsentByHead(s, MaxPattern);
    FindAbsentByHead(s, HeaterPattern);
    FindAbsentByHead(s, PompaPattern);
  }

  /** `Mode: auto` is not a mode token: matching is case-sensitive. */
  lemma ModeIsCaseSensitive()
    ensures ParseEsp32Data("Suhu: 30 C, " + "Mode: auto").Some?
    ensures ParseEsp32Data("Suhu: 30 C, " + "Mode: auto").value.mode == None
  {
    var head, tail := "Suhu: 30 C, ", "Mode: auto";
    var s := head + tail;
    assert s[..12] == head && s[12..] == tail;
    assert forall i :: 0 <= i < |head| ==> head[i] != 'M';
    assert forall i :: 1 <= i < |tail| ==> tail[i] != 'M';
    assert LiteralAt(s, 0, "Suhu: ") && s[6..8] == "30" && LiteralAt(s, 8, " C");
    RunEndAt(s, 6, 8, DigitOrDot);
    FindAt(s, SuhuPattern, 0, "30");
    var alts := ["Auto", "Off"];
    assert ModePattern == Choice("Mode: ", alts);
    LiteralAtChars(s, 18, "Auto");
    LiteralAtChars(s, 18, "Off");
    assert s[18] == tail[6] == 'a';
    assert FirstAlt(s, 18, alts, 0) == None;
    forall q | 0 <= q <= |s| ensures CaptureAt(s, ModePattern, q).None? {
      if q < 12 {
        assert s[q] == s[..12][q];
        MismatchAt(s, q, "Mode: ", 0);
      } else if 12 < q {
        assert q < |s| ==> s[q] == s[12..][q - 12];
        MismatchAt(s, q, "Mode: ", 0);
      }
    }
    FindAbsent(s, ModePattern);
  }

  /** The status line the controller sends, as documented beside the message handler, in the
      six parts that carry one field each. */
  const TemperaturePart: string := "Suhu: 32.5 C, "
  const ModePart: string := "Mode: Auto, "
  const MinPart: string := "Min: 30, "
  const MaxPart: string := "Max: 40, "
  const HeaterPart: string := "Durasi Heater: 120s, "
  const PompaPart: string := "Durasi Pompa: 60s"
  const ExampleLine: string := TemperaturePart + ModePart + MinPart + MaxPart + HeaterPart + PompaPart

  lemma ExampleLineParses()
    ensures ParseEsp32Data(ExampleLine)
      == Some(Reading(Some("32.5"), Some("auto"), Some("30"), Some("40"), Some(120), Some(60)))
  {
    ExampleTemperature();
    ExampleMode();
    ExampleMin();
    ExampleMax();
    ExampleHeater();
    ExamplePompa();
    ExampleDurationValues();
  }

  lemma ExampleDurationValues()
    ensures ParseInt("120") == 120 && ParseInt("60") == 60
  {
    assert "120"[..2] == "12" && "12"[..1] == "1" && "1"[..0] == "";
    assert "60"[..1] == "6" && "6"[..0] == "";
  }

  /** Where the letters that begin a prefix (`M`, `D`) occur in the parts of the example. */
  lemma ExamplePartLetters()
    ensures forall i :: 0 <= i < |TemperaturePart| ==> TemperaturePart[i] != 'M' && TemperaturePart[i] != 'D'
    ensures forall i :: 1 <= i < |ModePart| ==> ModePart[i] != 'M' && ModePart[i] != 'D'
    ensures forall i :: 1 <= i < |MinPart| ==> MinPart[i] != 'M' && MinPart[i] != 'D'
    ensures forall i :: 0 <= i < |MaxPart| ==> MaxPart[i] != 'D'
    ensures forall i :: 1 <= i < |HeaterPart| ==> HeaterPart[i] != 'D'
    ensures ModePart[1] == 'o' && MinPart[1] == 'i' && HeaterPart[7] == 'H'
  {
  }

  /** The example split back into its parts. */
  lemma ExampleLineSlices()
    ensures |ExampleLine| == 82
    ensures ExampleLine[..14] == TemperaturePart
    ensures ExampleLine[14..26] == ModePart
    ensures ExampleLine[26..35] == MinPart
    ensures ExampleLine[35..44] == MaxPart
    ensures ExampleLine[44..65] == HeaterPart
    ensures ExampleLine[65..] == PompaPart
  {
  }

  /** Character `q` of the example, read from the part it falls in. */
  lemma ExampleLineAt(q: nat)
    requires q < 82
    ensures |ExampleLine| == 82
    ensures q < 14 ==> ExampleLine[q] == TemperaturePart[q]
    ensures 14 <= q < 26 ==> ExampleLine[q] == ModePart[q - 14]
    ensures 26 <= q < 35 ==> ExampleLine[q] == MinPart[q - 26]
    ensures 35 <= q < 44 ==> ExampleLine[q] == MaxPart[q - 35]
    ensures 44 <= q < 65 ==> ExampleLine[q] == HeaterPart[q - 44]
    ensures 65 <= q ==> ExampleLine[q] == PompaPart[q - 65]
  {
    var s := ExampleLine;
    ExampleLineSlices();
    if q < 14 {
      assert s[q] == s[..14][q];
    } else if q < 26 {
      assert s[q] == s[14..26][q - 14];
    } else if q < 35 {
      assert s[q] == s[26..35][q - 26];
    } else if q < 44 {
      assert s[q] == s[35..44][q - 35];
    } else if q < 65 {
      assert s[q] == s[44..65][q - 44];
    } else {
      assert s[q] == s[65..][q - 65];
    }
  }

  lemma ExampleTemperature()
    ensures Find(ExampleLine, SuhuPattern) == Some("32.5")
  {
    var s := ExampleLine;
    assert LiteralAt(s, 0, "Suhu: ") && s[6..10] == "32.5" && LiteralAt(s, 10, " C");
    RunEndAt(s, 6, 10, DigitOrDot);
    FindAt(s, SuhuPattern, 0, "32.5");
  }

  lemma ExampleMode()
    ensures Find(ExampleLine, ModePattern) == Some("Auto")
  {
    var s := ExampleLine;
    ExamplePartLetters();
    forall q | 0 <= q < 14 ensures !LiteralAt(s, q, "Mode: ") {
      ExampleLineAt(q);
      MismatchAt(s, q, "Mode: ", 0);
    }
    assert LiteralAt(s, 14, "Mode: ") && LiteralAt(s, 20, "Auto");
    FindAt(s, ModePattern, 14, "Auto");
  }

  lemma ExampleMin()
    ensures Find(ExampleLine, MinPattern) == Some("30")
  {
    var s := ExampleLine;
    ExampleMinNotBefore();
    assert LiteralAt(s, 26, "Min: ") && s[31..33] == "30";
    RunEndAt(s, 31, 33, DigitOrDot);
    FindAt(s, MinPattern, 26, "30");
  }

  lemma ExampleMinNotBefore()
    ensures forall q :: 0 <= q < 26 ==> !LiteralAt(ExampleLine, q, "Min: ")
  {
    var s := ExampleLine;
    ExamplePartLetters();
    forall q | 0 <= q < 26 ensures !LiteralAt(s, q, "Min: ") {
      ExampleLineAt(q);
      if q == 14 {
        ExampleLineAt(15);
        MismatchAt(s, q, "Min: ", 1);
      } else {
        MismatchAt(s, q, "Min: ", 0);
      }
    }
  }

  lemma ExampleMax()
    ensures Find(ExampleLine, MaxPattern) == Some("40")
  {
    var s := ExampleLine;
    ExampleMaxNotBefore();
    assert LiteralAt(s, 35, "Max: ") && s[40..42] == "40";
    RunEndAt(s, 40, 42, DigitOrDot);
    FindAt(s, MaxPattern, 35, "40");
  }

  lemma ExampleMaxNotBefore()
    ensures forall q :: 0 <= q < 35 ==> !LiteralAt(ExampleLine, q, "Max: ")
  {
    var s := ExampleLine;
    ExamplePartLetters();
    forall q | 0 <= q < 35 ensures !LiteralAt(s, q, "Max: ") {
      ExampleLineAt(q);
      if q == 14 || q == 26 {
        ExampleLineAt(q + 1);
        MismatchAt(s, q, "Max: ", 1);
      } else {
        MismatchAt(s, q, "Max: ", 0);
      }
    }
  }

  lemma ExampleHeater()
    ensures Find(ExampleLine, HeaterPattern) == Some("120")
  {
    var s := ExampleLine;
    ExampleHeaterNotBefore();
    assert LiteralAt(s, 44, "Durasi Heater: ") && s[59..62] == "120" && LiteralAt(s, 62, "s");
    RunEndAt(s, 59, 62, Digit);
    FindAt(s, HeaterPattern, 44, "120");
  }

  lemma ExampleHeaterNotBefore()
    ensures forall q :: 0 <= q < 44 ==> !LiteralAt(ExampleLine, q, "Durasi Heater: ")
  {
    var s := ExampleLine;
    ExamplePartLetters();
    forall q | 0 <= q < 44 ensures !LiteralAt(s, q, "Durasi Heater: ") {
      ExampleLineAt(q);
      MismatchAt(s, q, "Durasi Heater: ", 0);
    }
  }

  lemma ExamplePompa()
    ensures Find(ExampleLine, PompaPattern) == Some("60")
  {
    var s := ExampleLine;
    ExamplePompaNotBefore();
    assert LiteralAt(s, 65, "Durasi Pompa: ") && s[79..81] == "60" && LiteralAt(s, 81, "s");
    RunEndAt(s, 79, 81, Digit);
    FindAt(s, PompaPattern, 65, "60");
  }

  lemma ExamplePompaNotBefore()
    ensures forall q :: 0 <= q < 65 ==> !LiteralAt(ExampleLine, q, "Durasi Pompa: ")
  {
    var s := ExampleLine;
    ExamplePartLetters();
    forall q | 0 <= q < 65 ensures !LiteralAt(s, q, "Durasi Pompa: ") {
      ExampleLineAt(q);
      if q == 44 {
        ExampleLineAt(51);
        MismatchAt(s, q, "Durasi Pompa: ", 7);
      } else {
        MismatchAt(s, q, "Durasi Pompa: ", 0);
      }
    }
  }
}
