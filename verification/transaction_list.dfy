/**
  The recent-activity list: each transaction row is classified by its type
  string. The type picks the row's icon and styles, and the type together with
  the row's optional fields decides its main text, subtitle and value cell.
 */
module TransactionList {
  import opened Wrappers
  import MetricCard

  /**
    A transaction row. The source rows are untyped records, so every field
    besides id, type and time may be absent.
   */
  datatype Transaction = Transaction(
    id: int, kind: string, time: string,
    token: Option<string>, amount: Option<string>, value: Option<string>,
    from: Option<string>, to: Option<string>,
    tokenFrom: Option<string>, tokenTo: Option<string>,
    amountFrom: Option<string>, amountTo: Option<string>)

  /** The rows the list shows. */
  const Transactions: seq<Transaction> := [
    Transaction(1, "receive", "2 mins ago", Some("ETH"), Some("+2.45"), Some("$4,891.23"),
                Some("0x1a2b...3c4d"), None, None, None, None, None),
    Transaction(2, "send", "15 mins ago", Some("USDC"), Some("-1,500"), Some("$1,500.00"),
                None, Some("0x5e6f...7g8h"), None, None, None, None),
    Transaction(3, "swap", "1 hour ago", None, None, None,
                None, None, Some("WBTC"), Some("ETH"), Some("0.15"), Some("2.4")),
    Transaction(4, "receive", "3 hours ago", Some("AAVE"), Some("+125"), Some("$9,875.00"),
                Some("0x9i0j...1k2l"), None, None, None, None, None),
    Transaction(5, "send", "5 hours ago", Some("ETH"), Some("-0.5"), Some("$998.50"),
                None, Some("0x3m4n...5o6p"), None, None, None, None)
  ]

  /** The three types the switch statements know. */
  predicate KnownType(kind: string) {
    kind == "receive" || kind == "send" || kind == "swap"
  }

  // ---------------------------------------------------------------------------
  // Icon and styles
  // ---------------------------------------------------------------------------

  datatype TypeIcon = ArrowDown | ArrowUp | Repeat

  /** `getTypeIcon`: no icon (`null`) for an unknown type. */
  function TypeIconOf(kind: string): (r: Option<TypeIcon>)
    ensures r.Some? <==> KnownType(kind)
    ensures r == Some(ArrowDown) <==> kind == "receive"
    ensures r == Some(ArrowUp) <==> kind == "send"
    ensures r == Some(Repeat) <==> kind == "swap"
  {
    match kind
    case "receive" => Some(ArrowDown)
    case "send" => Some(ArrowUp)
    case "swap" => Some(Repeat)
    case _ => None
  }

  /** The style record `getTypeStyles` returns. */
  datatype Styles = Styles(bg: string, text: string, glow: string, glowColor: MetricCard.Accent)

  /** `getTypeStyles`: total, with a muted default for an unknown type. */
  function TypeStylesOf(kind: string): (s: Styles)
    ensures s.glowColor == MetricCard.Bio <==> kind == "receive"
    ensures s.glowColor == MetricCard.Teal <==> kind == "swap"
    ensures s.glowColor == MetricCard.Cyan <==> !KnownType(kind) || kind == "send"
    ensures !KnownType(kind) ==> s.bg == "bg-muted" && s.text == "text-muted-foreground"
  {
    match kind
    case "receive" => Styles("bg-bio-emerald/10", "text-bio-emerald",
                             MetricCard.Hsla("158", "64", "52", "0.3"), MetricCard.Bio)
    case "send" => Styles("bg-primary/10", "text-primary",
                          MetricCard.Hsla("189", "94", "43", "0.3"), MetricCard.Cyan)
    case "swap" => Styles("bg-bio-teal/10", "text-bio-teal",
                          MetricCard.Hsla("168", "76", "42", "0.3"), MetricCard.Teal)
    case _ => Styles("bg-muted", "text-muted-foreground",
                     MetricCard.Hsla("217", "33", "50", "0.3"), MetricCard.Cyan)
  }

  /**
    The row's glow colour string agrees with the accent palette of its glow
    colour exactly for the known types; the default's slate glow does not
    match the cyan palette it names.
   */
  lemma StyleGlowMatchesPaletteIffKnown(kind: string)
    ensures TypeStylesOf(kind).glow == MetricCard.PaletteOf(TypeStylesOf(kind).glowColor).glow <==> KnownType(kind)
  {
    if !KnownType(kind) {
      var g, c := TypeStylesOf(kind).glow, MetricCard.PaletteOf(MetricCard.Cyan).glow;
      assert g[5] != c[5];
    }
  }

  /** Icon and style classify types alike: a row has an icon exactly when its style is not the muted default. */
  lemma IconIffStyled(kind: string)
    ensures TypeIconOf(kind).Some? <==> TypeStylesOf(kind).bg != "bg-muted"
  {
  }

  /** Distinct known types get distinct icons and distinct glow colours. */
  lemma KnownTypesDistinguished(k1: string, k2: string)
    requires KnownType(k1) && KnownType(k2) && k1 != k2
    ensures TypeIconOf(k1) != TypeIconOf(k2)
    ensures TypeStylesOf(k1).glowColor != TypeStylesOf(k2).glowColor
  {
  }

  // ---------------------------------------------------------------------------
  // Row texts
  // ---------------------------------------------------------------------------

  /** A field placed as a JSX child: an absent field renders nothing. */
  function Child(f: Option<string>): (t: string)
    ensures t == "" <==> f == None || f == Some("")
    ensures f.Some? ==> t == f.value
  {
    match f
    case None => ""
    case Some(v) => v
  }

  /**
    A field placed in a template literal: an absent field renders as
    "undefined", so it differs from the JSX child exactly when it is absent.
   */
  function Interpolated(f: Option<string>): (t: string)
    ensures f.Some? ==> t == f.value
    ensures t != Child(f) <==> f.None?
  {
    match f
    case None => "undefined"
    case Some(v) => v
  }

  /** The row's main text. */
  function MainText(tx: Transaction): (t: string)
    ensures tx.kind == "swap" ==>
      t == Child(tx.amountFrom) + " " + Child(tx.tokenFrom) + " → " + Child(tx.amountTo) + " " + Child(tx.tokenTo)
    ensures tx.kind != "swap" ==> t == Child(tx.amount) + " " + Child(tx.token)
  {
    if tx.kind == "swap" then
      Child(tx.amountFrom) + " " + Child(tx.tokenFrom) + " → " + Child(tx.amountTo) + " " + Child(tx.tokenTo)
    else
      Child(tx.amount) + " " + Child(tx.token)
  }

  /** The colour class of the main text of a non-swap row: emerald only for receive. */
  function AmountClass(tx: Transaction): (c: string)
    ensures c == "text-bio-emerald" <==> tx.kind == "receive"
  {
    if tx.kind == "receive" then "text-bio-emerald" else "text-foreground"
  }

  /** The row's subtitle. */
  function Subtitle(tx: Transaction): (t: string)
    ensures tx.kind == "swap" ==> t == "Swapped via Uniswap"
    ensures tx.kind == "receive" ==> t == "From " + Interpolated(tx.from)
    ensures tx.kind != "swap" && tx.kind != "receive" ==> t == "To " + Interpolated(tx.to)
  {
    if tx.kind == "swap" then "Swapped via Uniswap"
    else if tx.kind == "receive" then "From " + Interpolated(tx.from)
    else "To " + Interpolated(tx.to)
  }

  /** The value cell (`tx.value && ...`): rendered for a present, non-empty value. */
  function ValueCell(tx: Transaction): (c: Option<string>)
    ensures c.Some? <==> tx.value.Some? && tx.value.value != ""
    ensures c.Some? ==> c == tx.value
  {
    match tx.value
    case None => None
    case Some(v) => if v == "" then None else Some(v)
  }

  /** An unknown type falls through every branch to the send-like rendering. */
  lemma UnknownTypeRendersLikeSend(tx: Transaction)
    requires !KnownType(tx.kind)
    ensures Subtitle(tx) == Subtitle(tx.(kind := "send"))
    ensures MainText(tx) == MainText(tx.(kind := "send"))
    ensures AmountClass(tx) == AmountClass(tx.(kind := "send"))
    ensures TypeIconOf(tx.kind).None? && TypeIconOf("send").Some?
  {
  }

  /**
    In the list, every row's type is known, the swap row is the only one with
    no value cell, and every subtitle names an address that is present.
   */
  lemma TransactionRowsRender()
    ensures forall i :: 0 <= i < |Transactions| ==> KnownType(Transactions[i].kind)
    ensures forall i :: 0 <= i < |Transactions| ==>
              (ValueCell(Transactions[i]).None? <==> Transactions[i].kind == "swap")
    ensures forall i :: 0 <= i < |Transactions| ==>
              (Transactions[i].kind == "receive" ==> Transactions[i].from.Some?) &&
              (Transactions[i].kind == "send" ==> Transactions[i].to.Some?)
  {
    var t := Transactions;
    assert t[2].value == None;
    forall i | 0 <= i < |t|
      ensures KnownType(t[i].kind)
      ensures ValueCell(t[i]).None? <==> t[i].kind == "swap"
      ensures (t[i].kind == "receive" ==> t[i].from.Some?) && (t[i].kind == "send" ==> t[i].to.Some?)
    {
      assert i == 0 || i == 1 || i == 2 || i == 3 || i == 4;
    }
  }
}
