/**
  The metric card: a three-way sign classification of the change figure
  chooses the trend badge's style, icon, glow colour and label, and the accent
  colour picks a palette whose glow is reused, brightened, for the text shadow.
 */
module MetricCard {
  import opened Wrappers

  // ---------------------------------------------------------------------------
  // Accent palette
  // ---------------------------------------------------------------------------

  datatype Accent = Cyan | Teal | Bio

  /** A palette entry of `accentColors`. */
  datatype Palette = Palette(gradient: string, glow: string, text: string)

  /** The hsla colour with the given hue, saturation and lightness figures, at the given alpha. */
  function Hsla(h: string, s: string, l: string, alpha: string): string {
    "hsla(" + h + ", " + s + "%, " + l + "%, " + alpha + ")"
  }

  /** The palette for an accent (`accentColors[accentColor]`). */
  function PaletteOf(a: Accent): (p: Palette)
    ensures p.glow == Hsla(GlowHue(a), GlowSaturation(a), GlowLightness(a), "0.3")
  {
    match a
    case Cyan => Palette("from-bio-cyan to-primary", Hsla("189", "94", "43", "0.3"), "text-bio-cyan")
    case Teal => Palette("from-bio-teal to-bio-cyan", Hsla("168", "76", "42", "0.3"), "text-bio-teal")
    case Bio => Palette("from-bio-emerald to-bio-teal", Hsla("158", "64", "52", "0.3"), "text-bio-emerald")
  }

  function GlowHue(a: Accent): string {
    match a case Cyan => "189" case Teal => "168" case Bio => "158"
  }
  function GlowSaturation(a: Accent): string {
    match a case Cyan => "94" case Teal => "76" case Bio => "64"
  }
  function GlowLightness(a: Accent): string {
    match a case Cyan => "43" case Teal => "42" case Bio => "52"
  }

  /** The accent a card uses: the one given, or cyan when none is. */
  function AccentOrDefault(given: Option<Accent>): (a: Accent)
    ensures given.None? ==> a == Cyan
    ensures given.Some? ==> a == given.value
  {
    match given
    case None => Cyan
    case Some(a) => a
  }

  /** The three palettes are pairwise distinct in every field. */
  lemma PalettesDistinct(a: Accent, b: Accent)
    requires a != b
    ensures PaletteOf(a).gradient != PaletteOf(b).gradient
    ensures PaletteOf(a).text != PaletteOf(b).text
    ensures PaletteOf(a).glow != PaletteOf(b).glow
  {
    var pa, pb := PaletteOf(a), PaletteOf(b);
    assert pa.glow[5..8] == GlowHue(a) && pb.glow[5..8] == GlowHue(b);
    assert pa.gradient[5] != pb.gradient[5] || pa.gradient[9] != pb.gradient[9];
    assert pa.text[9] != pb.text[9];
  }

  // ---------------------------------------------------------------------------
  // First-occurrence replacement (`String.prototype.replace` with a string pattern)
  // ---------------------------------------------------------------------------

  /** `pat` occurs in `s` at position `i`. */
  predicate OccursAt(s: string, pat: string, i: nat) {
    i + |pat| <= |s| && s[i..i + |pat|] == pat
  }

  /** `s` with the first occurrence of the non-empty `pat` replaced by `rep`; `s` itself if none. */
  function ReplaceFirst(s: string, pat: string, rep: string): (r: string)
    requires pat != []
    ensures OccursAt(s, pat, 0) ==> r == rep + s[|pat|..]
    ensures r == s || |r| == |s| - |pat| + |rep|
    decreases |s|
  {
    if |s| < |pat| then s
    else if s[..|pat|] == pat then rep + s[|pat|..]
    else
      var tail := ReplaceFirst(s[1..], pat, rep);
      assert tail == s[1..] ==> [s[0]] + tail == s;
      [s[0]] + tail
  }

  /** A replacement that changes `s` swaps one occurrence of `pat` for `rep` and keeps the text around it. */
  lemma {:induction false} ReplaceFirstSwapsOne(s: string, pat: string, rep: string)
    requires pat != []
    ensures ReplaceFirst(s, pat, rep) != s ==>
              exists i: nat :: OccursAt(s, pat, i) && ReplaceFirst(s, pat, rep) == s[..i] + rep + s[i + |pat|..]
    decreases |s|
  {
    if |s| < |pat| {
    } else if s[..|pat|] == pat {
      assert OccursAt(s, pat, 0) && s[..0] == [];
    } else {
      var tail := ReplaceFirst(s[1..], pat, rep);
      assert ReplaceFirst(s, pat, rep) == [s[0]] + tail;
      if tail != s[1..] {
        ReplaceFirstSwapsOne(s[1..], pat, rep);
        var j: nat :| OccursAt(s[1..], pat, j) && tail == s[1..][..j] + rep + s[1..][j + |pat|..];
        SwapShiftsRight(s, pat, rep, j, tail);
      } else {
        assert [s[0]] + tail == s;
      }
    }
  }

  /** A swap in the tail of `s` at position `j` is a swap in `s` at position `j + 1`. */
  lemma SwapShiftsRight(s: string, pat: string, rep: string, j: nat, tail: string)
    requires s != [] && OccursAt(s[1..], pat, j)
    requires tail == s[1..][..j] + rep + s[1..][j + |pat|..]
    ensures OccursAt(s, pat, j + 1)
    ensures [s[0]] + tail == s[..j + 1] + rep + s[j + 1 + |pat|..]
  {
    var here, there := s[j + 1..j + 1 + |pat|], s[1..][j..j + |pat|];
    forall k | 0 <= k < |pat| ensures here[k] == there[k] {
      assert s[j + 1 + k] == s[1..][j + k];
    }
    assert here == there;
    assert [s[0]] + s[1..][..j] == s[..j + 1];
    assert s[1..][j + |pat|..] == s[j + 1 + |pat|..];
  }

  /**
    When `pat` first occurs in `s` at the end of `prefix`, replacing the first
    occurrence swaps exactly that occurrence and keeps everything around it.
   */
  lemma {:induction false} ReplaceFirstAt(prefix: string, pat: string, rest: string, rep: string)
    requires pat != []
    requires forall i :: 0 <= i < |prefix| ==> !OccursAt(prefix + pat + rest, pat, i)
    ensures ReplaceFirst(prefix + pat + rest, pat, rep) == prefix + rep + rest
    decreases |prefix|
  {
    var s := prefix + pat + rest;
    if prefix == [] {
      assert s == pat + rest;
      assert s[..|pat|] == pat;
      assert s[|pat|..] == rest;
    } else {
      var tail := prefix[1..] + pat + rest;
      assert s == [prefix[0]] + tail;
      assert s[1..] == tail;
      assert !OccursAt(s, pat, 0);
      NoOccurrenceInTail(prefix, pat, rest);
      ReplaceFirstAt(prefix[1..], pat, rest, rep);
      assert prefix + rep + rest == [prefix[0]] + (prefix[1..] + rep + rest);
    }
  }

  /** Dropping the first character shifts the positions that are free of `pat` down by one. */
  lemma NoOccurrenceInTail(prefix: string, pat: string, rest: string)
    requires prefix != []
    requires forall i :: 0 <= i < |prefix| ==> !OccursAt(prefix + pat + rest, pat, i)
    ensures forall i :: 0 <= i < |prefix| - 1 ==> !OccursAt(prefix[1..] + pat + rest, pat, i)
  {
    var s := prefix + pat + rest;
    var tail := prefix[1..] + pat + rest;
    assert s[1..] == tail;
    forall i | 0 <= i < |prefix| - 1
      ensures !OccursAt(tail, pat, i)
    {
      assert !OccursAt(s, pat, i + 1);
      if i + |pat| <= |tail| {
        var here, there := s[i + 1..i + 1 + |pat|], tail[i..i + |pat|];
        forall j | 0 <= j < |pat| ensures here[j] == there[j] {
          assert s[i + 1 + j] == s[1..][i + j];
        }
        assert here == there;
      }
    }
  }

  /** A position whose next character is not '.' cannot start an occurrence of "0.3". */
  lemma NoDecimalNoOccurrence(s: string, i: nat)
    requires i + 1 < |s| && s[i + 1] != '.'
    ensures !OccursAt(s, "0.3", i)
  {
  }

  /**
    The text-shadow colour: the accent glow with its "0.3" replaced by
    `alpha`. It is the same hsla colour at the new alpha.
   */
  function ShadowGlow(a: Accent, alpha: string): (c: string)
    requires '$' !in alpha
    ensures c == Hsla(GlowHue(a), GlowSaturation(a), GlowLightness(a), alpha)
  {
    var h, sat, l := GlowHue(a), GlowSaturation(a), GlowLightness(a);
    assert '.' !in h && '.' !in sat && '.' !in l;
    HslaReplaceAlpha(h, sat, l, alpha);
    ReplaceFirst(PaletteOf(a).glow, "0.3", alpha)
  }

  /**
    An hsla colour at alpha 0.3 whose figures have no decimal point contains
    exactly one "0.3", its alpha; replacing the first "0.3" therefore changes
    the alpha and nothing else in the string.
   */
  lemma HslaReplaceAlpha(h: string, sat: string, l: string, alpha: string)
    requires '.' !in h && '.' !in sat && '.' !in l
    ensures ReplaceFirst(Hsla(h, sat, l, "0.3"), "0.3", alpha) == Hsla(h, sat, l, alpha)
  {
    var prefix := "hsla(" + h + ", " + sat + "%, " + l + "%, ";
    assert Hsla(h, sat, l, "0.3") == prefix + "0.3" + ")";
    assert Hsla(h, sat, l, alpha) == prefix + alpha + ")";
    assert '.' !in prefix;
    forall i | 0 <= i < |prefix| ensures !OccursAt(prefix + "0.3" + ")", "0.3", i) {
      var s := prefix + "0.3" + ")";
      if i + 1 < |prefix| {
        assert s[i + 1] == prefix[i + 1];
      } else {
        assert s[i + 1] == '0';
      }
      NoDecimalNoOccurrence(s, i);
    }
    ReplaceFirstAt(prefix, "0.3", ")", alpha);
  }

  // ---------------------------------------------------------------------------
  // Trend classification
  // ---------------------------------------------------------------------------

  datatype Trend = Positive | Neutral | Negative

  /** `isPositive = change > 0`, `isNeutral = change === 0`, negative otherwise. */
  function TrendOf(change: real): (t: Trend)
    ensures t == Positive <==> change > 0.0
    ensures t == Neutral <==> change == 0.0
    ensures t == Negative <==> change < 0.0
  {
    if change > 0.0 then Positive else if change == 0.0 then Neutral else Negative
  }

  datatype TrendIcon = TrendUp | TrendDown | Minus
  datatype GlowColor = CyanGlow | TealGlow | BioGlow

  /** The badge's style classes. */
  function TrendClass(t: Trend): (c: string)
    ensures c == "bg-bio-emerald/10 text-bio-emerald" <==> t == Positive
    ensures c == "bg-muted text-muted-foreground" <==> t == Neutral
    ensures c == "bg-destructive/10 text-destructive" <==> t == Negative
  {
    match t
    case Positive => "bg-bio-emerald/10 text-bio-emerald"
    case Neutral => "bg-muted text-muted-foreground"
    case Negative => "bg-destructive/10 text-destructive"
  }

  /** The badge's icon. */
  function IconOf(t: Trend): (i: TrendIcon)
    ensures i == TrendUp <==> t == Positive
    ensures i == Minus <==> t == Neutral
    ensures i == TrendDown <==> t == Negative
  {
    match t
    case Neutral => Minus
    case Positive => TrendUp
    case Negative => TrendDown
  }

  /** The pulse glow of the badge's icon: bio only for a positive change. */
  function PulseGlow(t: Trend): (g: GlowColor)
    ensures g != TealGlow
  {
    if t == Positive then BioGlow else CyanGlow
  }

  /**
    The badge label: "0" when neutral, otherwise the number as JavaScript
    writes it (`numberText`, not modelled) behind a "+" when positive; then "%".
   */
  function Label(change: real, numberText: string): (s: string)
    ensures change == 0.0 ==> s == "0%"
    ensures change > 0.0 ==> s == "+" + numberText + "%"
    ensures change < 0.0 ==> s == numberText + "%"
  {
    (if TrendOf(change) == Neutral then "0" else (if TrendOf(change) == Positive then "+" else "") + numberText) + "%"
  }

  /** Every change falls in exactly one class, and the class fixes style and icon one-to-one. */
  lemma TrendSelectsOneStyle(change: real, other: real)
    ensures TrendClass(TrendOf(change)) == TrendClass(TrendOf(other)) <==> TrendOf(change) == TrendOf(other)
    ensures IconOf(TrendOf(change)) == IconOf(TrendOf(other)) <==> TrendOf(change) == TrendOf(other)
    ensures IconOf(TrendOf(change)) == Minus <==> change == 0.0
    ensures IconOf(TrendOf(change)) == TrendUp <==> change > 0.0
    ensures IconOf(TrendOf(change)) == TrendDown <==> change < 0.0
  {
    var a, b := TrendClass(TrendOf(change)), TrendClass(TrendOf(other));
    if TrendOf(change) != TrendOf(other) {
      assert a[3] != b[3] || a[4] != b[4];
    }
  }

  /** The glow merges neutral and negative: it is bio exactly for a positive change. */
  lemma PulseGlowIsBioIffPositive(change: real)
    ensures PulseGlow(TrendOf(change)) == BioGlow <==> change > 0.0
    ensures PulseGlow(TrendOf(change)) == CyanGlow <==> change <= 0.0
  {
  }
}
