/** The grammar of RFC 8259 as concrete syntax trees, and the theorem that the
    parser accepts exactly the texts that render an admissible tree. */
module JsonGrammar {
  import opened CodeUnits
  import opened Json
  import opened StrictJson

  // ---- concrete syntax (RFC 8259, sections 2 to 7) ----

  datatype Piece =
    | Plain(unit: Unit)               // one unescaped unit of the basic plane
    | Pair(high: Unit, low: Unit)     // an unescaped supplementary character
    | Short(escape: Unit)             // two-character escape
    | Hex(h: Text)                    // \uXXXX
    | HexPair(h1: Text, h2: Text)     // \uXXXX\uXXXX, a surrogate pair

  /** minus, int, frac and exp as section 6 names them; frac and exp may be empty. */
  datatype NumberToken = NumberToken(minus: bool, whole: Text, frac: Text, exp: Text)

  datatype Tree =
    | TNull | TTrue | TFalse
    | TNumber(token: NumberToken)
    | TString(pieces: seq<Piece>)
    | TArray(gap: Text, items: seq<Item>)       // gap is rendered when there are no items
    | TObject(gap: Text, members: seq<Member>)

  datatype Item = Item(before: Text, value: Tree, after: Text)

  datatype Member = Member(before: Text, key: seq<Piece>, mid: Text, pad: Text, value: Tree, after: Text)

  function RenderPiece(c: Piece): Text {
    match c
    case Plain(u) => [u]
    case Pair(high, low) => [high, low]
    case Short(e) => [BACKSLASH, e]
    case Hex(h) => [BACKSLASH, LOWER_U] + h
    case HexPair(h1, h2) => ([BACKSLASH, LOWER_U] + h1) + ([BACKSLASH, LOWER_U] + h2)
  }

  function RenderPieces(cs: seq<Piece>): Text {
    if cs == [] then [] else RenderPiece(cs[0]) + RenderPieces(cs[1..])
  }

  function RenderToken(t: NumberToken): Text {
    (if t.minus then [MINUS] else []) + t.whole + t.frac + t.exp
  }

  function Render(t: Tree): Text
    decreases t, 0
  {
    match t
    case TNull => NULL
    case TTrue => TRUE
    case TFalse => FALSE
    case TNumber(token) => RenderToken(token)
    case TString(pieces) => [QUOTE] + RenderPieces(pieces) + [QUOTE]
    case TArray(gap, items) => [LBRACKET] + (if items == [] then gap + [RBRACKET] else RenderItems(items))
    case TObject(gap, members) => [LBRACE] + (if members == [] then gap + [RBRACE] else RenderMembers(members))
  }

  /** Items with their separators and the closing bracket. */
  function RenderItems(items: seq<Item>): Text
    requires items != []
    decreases items, 1
  {
    var m := items[0];
    m.before + (Render(m.value) + (m.after + if |items| == 1 then [RBRACKET] else [COMMA] + RenderItems(items[1..])))
  }

  function RenderMembers(members: seq<Member>): Text
    requires members != []
    decreases members, 1
  {
    var m := members[0];
    m.before + (([QUOTE] + RenderPieces(m.key) + [QUOTE]) + (m.mid + ([COLON] + (m.pad + (Render(m.value) + (m.after
      + if |members| == 1 then [RBRACE] else [COMMA] + RenderMembers(members[1..])))))))
  }

  // ---- which trees are grammatical ----

  predicate AllSpace(w: Text) { forall k :: 0 <= k < |w| ==> IsSpace(w[k]) }

  predicate GoodPiece(c: Piece) {
    match c
    case Plain(u) => u >= 0x20 && u != QUOTE && u != BACKSLASH && !IsSurrogate(u)
    case Pair(high, low) => IsHigh(high) && IsLow(low)
    case Short(e) => ShortEscape(e) >= 0
    case Hex(h) => IsHex4(h) && !IsSurrogate(HexValue(h))
    case HexPair(h1, h2) => IsHex4(h1) && IsHex4(h2) && IsHigh(HexValue(h1)) && IsLow(HexValue(h2))
  }

  predicate GoodPieces(cs: seq<Piece>) { forall k :: 0 <= k < |cs| ==> GoodPiece(cs[k]) }

  predicate GoodInt(t: Text) {
    t == [ZERO] || (t != [] && IsNonZeroDigit(t[0]) && AllDigits(t[1..]))
  }

  predicate GoodFrac(t: Text) {
    t == [] || (|t| >= 2 && t[0] == DOT && AllDigits(t[1..]))
  }

  predicate GoodExp(t: Text) {
    t == [] ||
    (|t| >= 2 && (t[0] == LOWER_E || t[0] == UPPER_E) &&
     if t[1] == PLUS || t[1] == MINUS then |t| >= 3 && AllDigits(t[2..]) else AllDigits(t[1..]))
  }

  predicate GoodToken(t: NumberToken) { GoodInt(t.whole) && GoodFrac(t.frac) && GoodExp(t.exp) }

  predicate Grammatical(t: Tree) {
    match t
    case TNumber(token) => GoodToken(token)
    case TString(pieces) => GoodPieces(pieces)
    case TArray(gap, items) =>
      AllSpace(gap) && forall k :: 0 <= k < |items| ==> SpacedItem(items[k]) && Grammatical(items[k].value)
    case TObject(gap, members) =>
      AllSpace(gap) && forall k :: 0 <= k < |members| ==> SpacedMember(members[k]) && Grammatical(members[k].value)
    case _ => true
  }

  predicate SpacedItem(m: Item) { AllSpace(m.before) && AllSpace(m.after) }

  predicate SpacedMember(m: Member) {
    AllSpace(m.before) && GoodPieces(m.key) && AllSpace(m.mid) && AllSpace(m.pad) && AllSpace(m.after)
  }

  predicate GoodItems(items: seq<Item>) {
    forall k :: 0 <= k < |items| ==> SpacedItem(items[k]) && Grammatical(items[k].value)
  }

  predicate GoodMembers(members: seq<Member>) {
    forall k :: 0 <= k < |members| ==> SpacedMember(members[k]) && Grammatical(members[k].value)
  }

  // ---- what a tree denotes ----

  function DecodePiece(c: Piece): Text
    requires GoodPiece(c)
  {
    match c
    case Plain(u) => [u]
    case Pair(high, low) => [high, low]
    case Short(e) => [ShortEscape(e)]
    case Hex(h) => [HexValue(h)]
    case HexPair(h1, h2) => [HexValue(h1), HexValue(h2)]
  }

  function Decode(cs: seq<Piece>): Text
    requires GoodPieces(cs)
  {
    if cs == [] then [] else DecodePiece(cs[0]) + Decode(cs[1..])
  }

  function Denote(p: Profile, t: Tree): Value
    requires Grammatical(t)
    decreases t, 0
  {
    match t
    case TNull => Null
    case TTrue => Bool(true)
    case TFalse => Bool(false)
    case TNumber(token) => Num(p.toNumber(RenderToken(token)))
    case TString(pieces) => Str(Decode(pieces))
    case TArray(_, items) => Arr(DenoteItems(p, items))
    case TObject(_, members) => Obj(DenoteMembers(p, members, map[]))
  }

  function DenoteItems(p: Profile, items: seq<Item>): (vs: seq<Value>)
    requires GoodItems(items)
    ensures |vs| == |items|
    decreases items, 1
  {
    if items == [] then [] else [Denote(p, items[0].value)] + DenoteItems(p, items[1..])
  }

  /** Members in order over the base; a repeated key would overwrite. */
  function DenoteMembers(p: Profile, members: seq<Member>, base: map<Text, Value>): map<Text, Value>
    requires GoodMembers(members)
    decreases members, 1
  {
    if members == [] then base
    else DenoteMembers(p, members[1..], base[Decode(members[0].key) := Denote(p, members[0].value)])
  }

  // ---- the strict profile on trees ----

  /** Values in the tree, itself included. */
  function Count(t: Tree): (n: nat)
    ensures n >= 1
    decreases t, 0
  {
    match t
    case TArray(_, items) => 1 + CountItems(items)
    case TObject(_, members) => 1 + CountMembers(members)
    case _ => 1
  }

  function CountItems(items: seq<Item>): nat
    decreases items, 1
  {
    if items == [] then 0 else Count(items[0].value) + CountItems(items[1..])
  }

  function CountMembers(members: seq<Member>): nat
    decreases members, 1
  {
    if members == [] then 0 else Count(members[0].value) + CountMembers(members[1..])
  }

  predicate FitsString(p: Profile, cs: seq<Piece>)
    requires GoodPieces(cs)
  {
    ByteLength(Decode(cs)) <= p.limits.maxStringBytes
  }

  predicate DistinctKeys(members: seq<Member>)
    requires GoodMembers(members)
  {
    forall i, j :: 0 <= i < j < |members| ==> Decode(members[i].key) != Decode(members[j].key)
  }

  /** A grammatical tree at nesting level depth obeys the profile, the total
      value count aside. */
  predicate Fits(p: Profile, t: Tree, depth: nat)
    requires Grammatical(t)
    decreases t, 0
  {
    depth <= p.limits.maxDepth &&
    match t
    case TNumber(token) => TokenFault(p, RenderToken(token)).None?
    case TString(pieces) => FitsString(p, pieces)
    case TArray(_, items) => |items| <= p.limits.maxItems && forall k :: 0 <= k < |items| ==> Fits(p, items[k].value, depth + 1)
    case TObject(_, members) =>
      |members| <= p.limits.maxItems && DistinctKeys(members) &&
      forall k :: 0 <= k < |members| ==> FitsString(p, members[k].key) && Fits(p, members[k].value, depth + 1)
    case _ => true
  }

  /** What it takes for an object to fit, beside the depth. */
  lemma ObjectFits(p: Profile, t: Tree, depth: nat)
    requires t.TObject? && Grammatical(t) && depth <= p.limits.maxDepth
    ensures Fits(p, t, depth) <==>
            && |t.members| <= p.limits.maxItems && DistinctKeys(t.members)
            && forall k :: 0 <= k < |t.members| ==> FitsString(p, t.members[k].key) && Fits(p, t.members[k].value, depth + 1)
  {
    hide DistinctKeys, FitsString;
  }

  predicate Admissible(p: Profile, t: Tree) {
    Grammatical(t) && Fits(p, t, 1) && Count(t) <= p.limits.maxTotal
  }
}
