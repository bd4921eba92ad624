// JSONC texts: every way a value can be written, with its white space and comments spelled out.

module JsonText {
  import opened Basics
  import opened Utf8
  import opened Json

  // ----- gaps -----

  /** White space, a line comment with its newline, a block comment, or slash-star-slash, which closes at once. */
  datatype GapItem = Space(b: byte) | LineComment(body: seq<byte>) | BlockComment(body: seq<byte>) | TightComment

  type Gap = seq<GapItem>

  /** `b` holds no star directly followed by a slash. */
  ghost predicate NeverCloses(b: seq<byte>) {
    forall i :: 0 <= i < |b| - 1 ==> !(b[i] == STAR && b[i + 1] == SLASH)
  }

  /** A block comment's body may not close it early; the opening star counts, so it may not start with a slash. */
  ghost predicate ItemFits(item: GapItem) {
    match item
    case Space(b) => IsSpace(b)
    case LineComment(body) => NEWLINE !in body
    case BlockComment(body) => NeverCloses([STAR] + body)
    case TightComment => true
  }

  ghost predicate GapFits(g: Gap) {
    forall i :: 0 <= i < |g| ==> ItemFits(g[i])
  }

  /** A byte of a comment, blanked. */
  function Blank(b: byte): byte {
    if b == NEWLINE then NEWLINE else SPACE
  }

  function BlankAll(s: seq<byte>): (r: seq<byte>)
    ensures |r| == |s|
  {
    seq(|s|, i requires 0 <= i < |s| => Blank(s[i]))
  }

  ghost function ItemBytes(item: GapItem): seq<byte> {
    match item
    case Space(b) => [b]
    case LineComment(body) => [SLASH, SLASH] + body + [NEWLINE]
    case BlockComment(body) => [SLASH, STAR] + body + [STAR, SLASH]
    case TightComment => [SLASH, STAR, SLASH]
  }

  /** A text as written, or with its comments blanked. */
  datatype Form = Written | Blanked

  ghost function ItemText(item: GapItem, form: Form): (s: seq<byte>)
    ensures |s| == |ItemBytes(item)|
  {
    if form.Written? || item.Space? then ItemBytes(item) else BlankAll(ItemBytes(item))
  }

  ghost function GapText(g: Gap, form: Form): seq<byte> {
    if g == [] then [] else ItemText(g[0], form) + GapText(g[1..], form)
  }

  // ----- strings -----

  /** A stretch of plain bytes, a one-letter escape, or a unicode escape. */
  datatype Piece = Plain(bytes: seq<byte>) | Short(letter: byte) | Unicode(digits: seq<byte>)

  predicate PieceFits(piece: Piece) {
    match piece
    case Plain(bytes) => bytes != [] && QUOTE !in bytes && BACKSLASH !in bytes && ValidUtf8(bytes)
    case Short(letter) => ShortEscape(letter).Ok?
    case Unicode(digits) => |digits| == 4 && UnicodeEscape(digits).Ok?
  }

  /** Plain stretches are as long as they can be: no two stand side by side. */
  ghost predicate PiecesFit(pieces: seq<Piece>) {
    && (forall i :: 0 <= i < |pieces| ==> PieceFits(pieces[i]))
    && (forall i :: 0 < i < |pieces| ==> !(pieces[i - 1].Plain? && pieces[i].Plain?))
  }

  function PieceText(piece: Piece): (s: seq<byte>) {
    match piece
    case Plain(bytes) => bytes
    case Short(letter) => [BACKSLASH, letter]
    case Unicode(digits) => [BACKSLASH, 0x75] + digits
  }

  function PieceValue(piece: Piece): seq<byte>
    requires PieceFits(piece)
  {
    match piece
    case Plain(bytes) => bytes
    case Short(letter) => [ShortEscape(letter).value]
    case Unicode(digits) => EscapedText(UnicodeEscape(digits).value)
  }

  ghost function PiecesText(pieces: seq<Piece>): seq<byte> {
    if pieces == [] then [] else PieceText(pieces[0]) + PiecesText(pieces[1..])
  }

  ghost function PiecesValue(pieces: seq<Piece>): seq<byte>
    requires PiecesFit(pieces)
  {
    if pieces == [] then [] else PieceValue(pieces[0]) + PiecesValue(pieces[1..])
  }

  /** A string in its quotes. */
  ghost function QuotedText(pieces: seq<Piece>): seq<byte> {
    [QUOTE] + (PiecesText(pieces) + [QUOTE])
  }

  // ----- documents -----

  datatype Doc =
    | NullDoc
    | BoolDoc(value: bool)
    | NumDoc(text: seq<byte>)
    | StrDoc(pieces: seq<Piece>)
    | EmptyArray(inner: Gap)
    | ArrayDoc(items: Items)
    | EmptyObject(inner: Gap)
    | ObjectDoc(members: Members)

  /** One or more array items, each with the gaps around it. */
  datatype Items =
    | LastItem(before: Gap, doc: Doc, after: Gap)
    | Item(before: Gap, doc: Doc, after: Gap, rest: Items)

  /** One or more members: a gap, the key, a gap, a colon, then the value with its gaps. */
  datatype Members =
    | LastMember(lead: Gap, key: seq<Piece>, mid: Gap, before: Gap, doc: Doc, after: Gap)
    | Member(lead: Gap, key: seq<Piece>, mid: Gap, before: Gap, doc: Doc, after: Gap, rest: Members)

  ghost predicate DocFits(d: Doc) {
    match d
    case NullDoc => true
    case BoolDoc(_) => true
    case NumDoc(text) => text != [] && forall i :: 0 <= i < |text| ==> IsNumberByte(text[i])
    case StrDoc(pieces) => PiecesFit(pieces)
    case EmptyArray(inner) => GapFits(inner)
    case ArrayDoc(items) => ItemsFit(items)
    case EmptyObject(inner) => GapFits(inner)
    case ObjectDoc(members) => MembersFit(members)
  }

  ghost predicate ItemsFit(items: Items) {
    && GapFits(items.before) && DocFits(items.doc) && GapFits(items.after)
    && (items.Item? ==> ItemsFit(items.rest))
  }

  ghost predicate KeyFits(members: Members) {
    GapFits(members.lead) && PiecesFit(members.key) && GapFits(members.mid)
  }

  ghost predicate MembersFit(members: Members) {
    && KeyFits(members)
    && GapFits(members.before) && DocFits(members.doc) && GapFits(members.after)
    && (members.Member? ==> MembersFit(members.rest))
  }

  ghost function DocText(d: Doc, form: Form): seq<byte>
    decreases d, 0
  {
    match d
    case NullDoc => NULL
    case BoolDoc(value) => if value then TRUE else FALSE
    case NumDoc(text) => text
    case StrDoc(pieces) => QuotedText(pieces)
    case EmptyArray(inner) => [OPEN_ARRAY] + (GapText(inner, form) + [CLOSE_ARRAY])
    case ArrayDoc(items) => [OPEN_ARRAY] + ItemsText(items, form)
    case EmptyObject(inner) => [OPEN_OBJECT] + (GapText(inner, form) + [CLOSE_OBJECT])
    case ObjectDoc(members) => [OPEN_OBJECT] + MembersText(members, form)
  }

  /** A document between two gaps. */
  ghost function SlotText(before: Gap, d: Doc, after: Gap, form: Form): seq<byte>
    decreases d, 1
  {
    GapText(before, form) + (DocText(d, form) + GapText(after, form))
  }

  /** The items with their commas and the closing bracket. */
  ghost function ItemsText(items: Items, form: Form): seq<byte>
    decreases items, 0
  {
    SlotText(items.before, items.doc, items.after, form) +
    (match items
     case LastItem(_, _, _) => [CLOSE_ARRAY]
     case Item(_, _, _, rest) => [COMMA] + ItemsText(rest, form))
  }

  ghost function KeyText(members: Members, form: Form): seq<byte> {
    GapText(members.lead, form) + (QuotedText(members.key) + (GapText(members.mid, form) + [COLON]))
  }

  ghost function MembersText(members: Members, form: Form): seq<byte>
    decreases members, 0
  {
    KeyText(members, form) +
    (SlotText(members.before, members.doc, members.after, form) +
     (match members
      case LastMember(_, _, _, _, _, _) => [CLOSE_OBJECT]
      case Member(_, _, _, _, _, _, rest) => [COMMA] + MembersText(rest, form)))
  }

  ghost function DocValue(d: Doc): Json
    requires DocFits(d)
  {
    match d
    case NullDoc => Null
    case BoolDoc(value) => Bool(value)
    case NumDoc(text) => Num(text)
    case StrDoc(pieces) => Str(PiecesValue(pieces))
    case EmptyArray(_) => Array([])
    case ArrayDoc(items) => Array(ItemsValue(items))
    case EmptyObject(_) => Object([])
    case ObjectDoc(members) => Object(MembersValue(members))
  }

  ghost function ItemsValue(items: Items): seq<Json>
    requires ItemsFit(items)
  {
    [DocValue(items.doc)] + if items.Item? then ItemsValue(items.rest) else []
  }

  ghost function MembersValue(members: Members): seq<(seq<byte>, Json)>
    requires MembersFit(members)
  {
    [(PiecesValue(members.key), DocValue(members.doc))] + if members.Member? then MembersValue(members.rest) else []
  }

  /** A whole file: one document between gaps, and perhaps a last comment that nothing ends. */
  datatype File = File(before: Gap, doc: Doc, after: Gap, last: seq<byte>)

  /** A line comment without its newline, or a block comment that is never closed. */
  ghost predicate LastFits(last: seq<byte>) {
    || last == []
    || (|last| >= 2 && last[0] == SLASH && last[1] == SLASH && NEWLINE !in last)
    || (|last| >= 2 && last[0] == SLASH && last[1] == STAR && NeverCloses(last[1..]))
  }

  ghost predicate FileFits(f: File) {
    GapFits(f.before) && DocFits(f.doc) && GapFits(f.after) && LastFits(f.last)
  }

  ghost function FileText(f: File, form: Form): seq<byte> {
    SlotText(f.before, f.doc, f.after, form) + if form.Written? then f.last else BlankAll(f.last)
  }
}
