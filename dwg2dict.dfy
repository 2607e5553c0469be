/** The drawing-extraction core: the normalisation every attribute text goes
    through (replace_sub with its replace_hex callback), the peeling of
    "label：value" fragments out of title text (check_text), and the block
    dispatch and position sort of dxf2dict over the blocks of a drawing. */
module DwgToDict {
  import opened Text
  import opened Bom

  newtype byte = b: int | 0 <= b < 256

  /** bytes.decode('gbk') as an opaque partial function: None where Python
      raises UnicodeDecodeError. */
  type GbkDecoder = seq<byte> -> Option<string>

  // ---------------------------------------------------------------------------
  // Hexadecimal digits

  predicate IsHexDigit(c: char) {
    ('0' <= c <= '9') || ('a' <= c <= 'f') || ('A' <= c <= 'F')
  }

  predicate AllHex(s: string) {
    forall i :: 0 <= i < |s| ==> IsHexDigit(s[i])
  }

  function HexDigitValue(c: char): (v: nat)
    requires IsHexDigit(c)
    ensures v < 16
  {
    if '0' <= c <= '9' then c as int - '0' as int
    else if 'a' <= c <= 'f' then c as int - 'a' as int + 10
    else c as int - 'A' as int + 10
  }

  /** The upper-case hex digit of d. */
  function HexChar(d: nat): (c: char)
    requires d < 16
    ensures IsHexDigit(c) && HexDigitValue(c) == d
  {
    if d < 10 then ('0' as int + d) as char else ('A' as int + d - 10) as char
  }

  /** The byte two hex digits spell. */
  function ByteOf(hi: char, lo: char): byte
    requires IsHexDigit(hi) && IsHexDigit(lo)
  {
    (HexDigitValue(hi) * 16 + HexDigitValue(lo)) as byte
  }

  /** binascii.unhexlify of four hex digits. */
  function Unhexlify(h: string): (bs: seq<byte>)
    requires |h| == 4 && AllHex(h)
    ensures |bs| == 2
  {
    [ByteOf(h[0], h[1]), ByteOf(h[2], h[3])]
  }

  /** int(h, 16) for four hex digits. */
  function CodePoint(h: string): (v: nat)
    requires |h| == 4 && AllHex(h)
    ensures v < 0x1_0000
  {
    ByteOf(h[0], h[1]) as nat * 256 + ByteOf(h[2], h[3]) as nat
  }

  /** Two upper-case hex digits spelling b. */
  function HexByte(b: byte): (h: string)
    ensures |h| == 2 && AllHex(h)
    ensures ByteOf(h[0], h[1]) == b
  {
    [HexChar(b as nat / 16), HexChar(b as nat % 16)]
  }

  /** Four upper-case hex digits spelling v. */
  function Hex4(v: nat): (h: string)
    requires v < 0x1_0000
    ensures |h| == 4 && AllHex(h) && CodePoint(h) == v
  {
    var h := HexByte((v / 256) as byte) + HexByte((v % 256) as byte);
    assert ByteOf(h[0], h[1]) == (v / 256) as byte;
    assert ByteOf(h[2], h[3]) == (v % 256) as byte;
    h
  }

  /** The values a Dafny char can hold: every code point but the surrogates. */
  predicate IsScalar(v: int) {
    (0 <= v < 0xD800) || (0xE000 <= v < 0x11_0000)
  }

  // ---------------------------------------------------------------------------
  // replace_hex and the two escape substitutions

  /** A match of \\[Mm]\+5([0-9A-Fa-f]{4}) at the start of s, eight
      characters long; the group is s[4..8]. */
  predicate M5At(s: string) {
    && |s| >= 8
    && s[0] == '\\' && (s[1] == 'M' || s[1] == 'm') && s[2] == '+' && s[3] == '5'
    && AllHex(s[4..8])
  }

  /** replace_hex on a match m of the \M+5XXXX pattern: the GBK text of the
      two bytes the group spells, or the matched text itself when the
      decoding raises. */
  function DecodeM5(m: string, gbk: GbkDecoder): string
    requires M5At(m)
  {
    match gbk(Unhexlify(m[4..8]))
    case Some(t) => t
    case None => m
  }

  /** pattern_m5.sub(replace_hex, s): the matches are found left to right
      and do not overlap. */
  function SubM5(s: string, gbk: GbkDecoder): string
    decreases |s|
  {
    if s == [] then []
    else if M5At(s) then
      assert M5At(s[..8]) by { assert s[..8][4..8] == s[4..8]; }
      DecodeM5(s[..8], gbk) + SubM5(s[8..], gbk)
    else [s[0]] + SubM5(s[1..], gbk)
  }

  /** The length of a match of \\[Uu]\+?([0-9A-Fa-f]{4}) at the start of s:
      7 when the optional '+' is there, 6 when it is not; the group is
      always the last four characters of the match. */
  function UAt(s: string): (n: Option<nat>)
    ensures n.Some? ==> (n.value == 6 || n.value == 7) && n.value <= |s| && AllHex(s[n.value - 4..n.value])
  {
    if |s| >= 2 && s[0] == '\\' && (s[1] == 'U' || s[1] == 'u') then
      if |s| >= 7 && s[2] == '+' && AllHex(s[3..7]) then Some(7)
      else if |s| >= 6 && AllHex(s[2..6]) then Some(6)
      else None
    else None
  }

  /** replace_hex on a match m of the \U+XXXX pattern with group digits:
      chr(int(digits, 16)). Python's chr also yields the lone surrogates,
      which a Dafny string cannot hold; for those the match is left as it
      is. */
  function DecodeU(m: string, digits: string): string
    requires |digits| == 4 && AllHex(digits)
  {
    var v := CodePoint(digits);
    if IsScalar(v) then [v as char] else m
  }

  /** pattern_unicode.sub(replace_hex, s). */
  function SubU(s: string): string
    decreases |s|
  {
    if s == [] then []
    else match UAt(s)
      case Some(n) => DecodeU(s[..n], s[n - 4..n]) + SubU(s[n..])
      case None => [s[0]] + SubU(s[1..])
  }

  // ---------------------------------------------------------------------------
  // Formatting codes and blanks

  /** The first position of ';' or a line break in s, or |s| when there is
      none: where the lazy .*? of the formatting pattern stops. */
  function StopAt(s: string): (j: nat)
    ensures j <= |s|
    ensures forall k :: 0 <= k < j ==> s[k] != ';' && s[k] != '\n'
    ensures j < |s| ==> s[j] == ';' || s[j] == '\n'
  {
    if s == [] || s[0] == ';' || s[0] == '\n' then 0 else 1 + StopAt(s[1..])
  }

  /** The length of a match of \\[fFhHwWkK].*?;|[{}]|\\P at the start of s,
      the alternatives tried in that order; . does not match a line break. */
  function FormatAt(s: string): (n: Option<nat>)
    ensures n.Some? ==> 1 <= n.value <= |s|
  {
    if |s| >= 2 && s[0] == '\\' && s[1] in "fFhHwWkK" then
      var j := 2 + StopAt(s[2..]);
      if j < |s| && s[j] == ';' then Some(j + 1) else None
    else if |s| >= 1 && (s[0] == '{' || s[0] == '}') then Some(1)
    else if |s| >= 2 && s[0] == '\\' && s[1] == 'P' then Some(2)
    else None
  }

  /** pattern_format.sub("", s). */
  function StripFormat(s: string): (r: string)
    ensures |r| <= |s|
    decreases |s|
  {
    if s == [] then []
    else match FormatAt(s)
      case Some(n) => StripFormat(s[n..])
      case None => [s[0]] + StripFormat(s[1..])
  }

  /** pattern_blank.sub("", s): every run of whitespace removed. */
  function StripBlank(s: string): (r: string)
    ensures |r| <= |s|
  {
    if s == [] then [] else (if IsSpace(s[0]) then [] else [s[0]]) + StripBlank(s[1..])
  }

  /** replace_sub: the four substitutions, in the source's order. */
  function ReplaceSub(text: string, gbk: GbkDecoder): string {
    StripBlank(StripFormat(SubU(SubM5(text, gbk))))
  }

  // ---------------------------------------------------------------------------
  // What replace_sub promises

  lemma {:induction false} StripFormatNoBraces(s: string)
    ensures '{' !in StripFormat(s) && '}' !in StripFormat(s)
    decreases |s|
  {
    if s != [] {
      match FormatAt(s)
      case Some(n) => StripFormatNoBraces(s[n..]);
      case None => StripFormatNoBraces(s[1..]);
    }
  }

  lemma {:induction false} StripBlankChars(s: string)
    ensures forall c :: c in StripBlank(s) <==> c in s && !IsSpace(c)
  {
    if s != [] {
      StripBlankChars(s[1..]);
      assert s == [s[0]] + s[1..];
    }
  }

  /** The output of replace_sub holds no whitespace and no braces. */
  lemma ReplaceSubClean(text: string, gbk: GbkDecoder)
    ensures forall i :: 0 <= i < |ReplaceSub(text, gbk)| ==>
      var c := ReplaceSub(text, gbk)[i]; !IsSpace(c) && c != '{' && c != '}'
  {
    var f := StripFormat(SubU(SubM5(text, gbk)));
    StripFormatNoBraces(SubU(SubM5(text, gbk)));
    StripBlankChars(f);
  }

  /** Text with no backslash, brace or whitespace is the fixed point of
      every substitution. */
  predicate Plain(s: string) {
    forall i :: 0 <= i < |s| ==> s[i] != '\\' && s[i] != '{' && s[i] != '}' && !IsSpace(s[i])
  }

  lemma {:induction false} PlainSubs(s: string, gbk: GbkDecoder)
    requires Plain(s)
    ensures SubM5(s, gbk) == s && SubU(s) == s && StripFormat(s) == s && StripBlank(s) == s
    decreases |s|
  {
    if s != [] {
      assert Plain(s[1..]) by {
        forall i | 0 <= i < |s[1..]| ensures s[1..][i] == s[i + 1] { }
      }
      PlainSubs(s[1..], gbk);
      assert s == [s[0]] + s[1..];
    }
  }

  /** replace_sub leaves plain text alone, so its output, once free of
      backslashes, is a fixed point: applying it twice is applying it once. */
  lemma ReplaceSubPlain(text: string, gbk: GbkDecoder)
    ensures Plain(text) ==> ReplaceSub(text, gbk) == text
    ensures '\\' !in ReplaceSub(text, gbk) ==> ReplaceSub(ReplaceSub(text, gbk), gbk) == ReplaceSub(text, gbk)
  {
    if Plain(text) {
      PlainSubs(text, gbk);
    }
    var r := ReplaceSub(text, gbk);
    if '\\' !in r {
      ReplaceSubClean(text, gbk);
      PlainSubs(r, gbk);
    }
  }

  /** The escape \M+5 followed by the hex digits of two bytes. */
  function M5Escape(b0: byte, b1: byte): (s: string)
    ensures M5At(s) && |s| == 8
  {
    var s := "\\M+5" + HexByte(b0) + HexByte(b1);
    assert s[4..8] == HexByte(b0) + HexByte(b1);
    s
  }

  /** An escape of two bytes decodes to their GBK text, or stays as it was
      when the decoding raises. */
  lemma M5RoundTrip(b0: byte, b1: byte, gbk: GbkDecoder)
    ensures SubM5(M5Escape(b0, b1), gbk) == match gbk([b0, b1])
      case Some(t) => t
      case None => M5Escape(b0, b1)
  {
    var s := M5Escape(b0, b1);
    assert s[4..8] == HexByte(b0) + HexByte(b1);
    assert Unhexlify(s[4..8]) == [b0, b1];
    assert s[..8] == s && s[8..] == [];
  }

  /** The escape \U+ followed by the four hex digits of c. */
  function UEscape(c: char): (s: string)
    requires c as int < 0x1_0000
    ensures |s| == 7
  {
    "\\U+" + Hex4(c as int)
  }

  /** A \U+XXXX escape of a character decodes back to that character. */
  lemma URoundTrip(c: char)
    requires c as int < 0x1_0000
    ensures SubU(UEscape(c)) == [c]
  {
    var s := UEscape(c);
    assert s[3..7] == Hex4(c as int);
    assert UAt(s) == Some(7);
    assert s[..7] == s && s[7..] == [];
  }

  // ---------------------------------------------------------------------------
  // check_text

  /** The labels get_project_info hands to check_text. */
  const ProjectInfoLabels: seq<string> := ["项目名称", "合同号", "部件名称", "数量"]

  /** The full-width colon check_text deletes from every value it writes. */
  const FullColon: char := '：'

  /** str.split with an empty separator raises, so every label is
      non-empty. */
  predicate Labels(labels: seq<string>) {
    forall i :: 0 <= i < |labels| ==> |labels[i]| > 0
  }

  /** Python's truth value of an optional text: None and "" are false. */
  predicate NonEmptyText(o: Option<string>) {
    o.Some? && o.value != ""
  }

  /** The index of the first label, in list order, that occurs in value. */
  function FirstLabel(labels: seq<string>, value: string): (i: Option<nat>)
    ensures i.Some? ==> && i.value < |labels| && Contains(value, labels[i.value])
                        && forall j :: 0 <= j < i.value ==> !Contains(value, labels[j])
    ensures i.None? ==> forall j :: 0 <= j < |labels| ==> !Contains(value, labels[j])
  {
    if labels == [] then None
    else if Contains(value, labels[0]) then Some(0)
    else match FirstLabel(labels[1..], value)
      case None => None
      case Some(j) => Some(j + 1)
  }

  /** value.split(sep)[0]: the text before the first occurrence. */
  function BeforeLabel(value: string, sep: string): (h: string)
    requires Contains(value, sep)
    ensures |h| + |sep| <= |value|
  {
    value[..Find(value, sep).value]
  }

  /** value.split(sep)[1]: the text between the first occurrence and the
      next one, or the end. */
  function AfterLabel(value: string, sep: string): (t: string)
    requires Contains(value, sep) && |sep| > 0
    ensures |t| < |value|
  {
    var rest := value[Find(value, sep).value + |sep|..];
    match Find(rest, sep)
    case None => rest
    case Some(j) => rest[..j]
  }

  /** One round of check_text: the index of the label found, the dictionary
      after its two writes, and the value the recursive call receives; None
      when no label occurs in value. */
  function PeelStep(info: map<string, string>, key: Option<string>, value: string, labels: seq<string>)
    : (r: Option<(nat, map<string, string>, string)>)
    requires Labels(labels)
    ensures r.None? <==> forall j :: 0 <= j < |labels| ==> !Contains(value, labels[j])
    ensures r.Some? ==> && r.value.0 < |labels| && r.value.0 == FirstLabel(labels, value).value
                        && labels[r.value.0] in r.value.1 && r.value.2 == r.value.1[labels[r.value.0]]
                        && |r.value.2| < |value|
  {
    match FirstLabel(labels, value)
    case None => None
    case Some(i) =>
      var l := labels[i];
      var m := info[l := RemoveChar(AfterLabel(value, l), FullColon)];
      var m' := if NonEmptyText(key) then m[key.value := RemoveChar(BeforeLabel(value, l), FullColon)] else m;
      assert |m'[l]| < |value| by {
        if NonEmptyText(key) && key.value == l {
          assert m'[l] == RemoveChar(BeforeLabel(value, l), FullColon);
        }
      }
      Some((i, m', m'[l]))
  }

  /** The project_info dictionary check_text leaves behind. */
  function Peeled(info: map<string, string>, key: Option<string>, value: string, labels: seq<string>)
    : map<string, string>
    requires Labels(labels)
    decreases |value|
  {
    match PeelStep(info, key, value, labels)
    case None => info
    case Some(step) => Peeled(step.1, Some(labels[step.0]), step.2, labels)
  }

  /** The only entries check_text writes are the labels and the key it was
      given, and every text it writes is free of the full-width colon;
      every other entry, and every key already present, stays. */
  /** The two writes of one round. */
  lemma PeelStepWrites(info: map<string, string>, key: Option<string>, value: string, labels: seq<string>)
    requires Labels(labels)
    requires PeelStep(info, key, value, labels).Some?
    ensures var step := PeelStep(info, key, value, labels).value;
      && info.Keys <= step.1.Keys
      && forall k :: k in step.1 ==>
           || (k in info && step.1[k] == info[k])
           || ((k == labels[step.0] || (NonEmptyText(key) && k == key.value)) && FullColon !in step.1[k])
  {
  }

  lemma {:induction false} PeeledWrites(info: map<string, string>, key: Option<string>, value: string, labels: seq<string>)
    requires Labels(labels)
    ensures var out := Peeled(info, key, value, labels);
      && info.Keys <= out.Keys
      && forall k :: k in out ==>
           || (k in info && out[k] == info[k])
           || ((k in labels || (NonEmptyText(key) && k == key.value)) && FullColon !in out[k])
    decreases |value|
  {
    match PeelStep(info, key, value, labels)
    case None =>
    case Some(step) =>
      var l := labels[step.0];
      PeelStepWrites(info, key, value, labels);
      PeeledWrites(step.1, Some(l), step.2, labels);
  }

  /** A value in which no label occurs leaves the dictionary unchanged. */
  lemma PeeledNoLabel(info: map<string, string>, key: Option<string>, value: string, labels: seq<string>)
    requires Labels(labels)
    ensures (forall j :: 0 <= j < |labels| ==> !Contains(value, labels[j])) ==> Peeled(info, key, value, labels) == info
  {
  }

  /** The project_info dictionary that check_text mutates. */
  class ProjectInfo {
    var entries: map<string, string>

    constructor ()
      ensures entries == map[]
    {
      entries := map[];
    }

    /** check_text(key, value, self, labels): the labels are tried in list
        order, and the first one that occurs in value gets the text after
        it, the previous label gets the text before it, and the new value
        of that label is peeled in turn. */
    method CheckText(key: Option<string>, value: string, labels: seq<string>)
      requires Labels(labels)
      modifies this
      ensures entries == Peeled(old(entries), key, value, labels)
      decreases |value|
    {
      var i: nat := 0;
      while i < |labels|
        invariant 0 <= i <= |labels|
        invariant forall j :: 0 <= j < i ==> !Contains(value, labels[j])
        invariant entries == old(entries)
      {
        var found := labels[i];
        if Contains(value, found) {
          assert FirstLabel(labels, value) == Some(i);
          entries := entries[found := RemoveChar(AfterLabel(value, found), FullColon)];
          if NonEmptyText(key) {
            entries := entries[key.value := RemoveChar(BeforeLabel(value, found), FullColon)];
          }
          assert PeelStep(old(entries), key, value, labels) == Some((i, entries, entries[found]));
          CheckText(Some(found), entries[found], labels);
          return;
        }
        i := i + 1;
      }
    }
  }

  // ---------------------------------------------------------------------------
  // The block dispatch of dxf2dict

  /** An INSERT entity of the model space: the raw texts of its attributes
      and its insertion point. */
  datatype Block = Block(attributes: seq<string>, x: real, y: real)

  /** Python's round() on a float: the nearest integer, ties to the even
      one. */
  function Round(r: real): (n: int)
    ensures r - 0.5 <= n as real <= r + 0.5
    ensures (n as real == r - 0.5 || n as real == r + 0.5) ==> n % 2 == 0
  {
    var f := r.Floor;
    var d := r - f as real;
    if d < 0.5 then f else if d > 0.5 then f + 1 else if f % 2 == 0 then f else f + 1
  }

  /** The attribute texts after replace_sub. */
  function Cleaned(b: Block, gbk: GbkDecoder): (t: seq<string>)
    ensures |t| == |b.attributes|
  {
    seq(|b.attributes|, i requires 0 <= i < |b.attributes| => ReplaceSub(b.attributes[i], gbk))
  }

  predicate AllEmpty(t: seq<string>) {
    forall i :: 0 <= i < |t| ==> t[i] == ""
  }

  /** How dxf2dict treats a block, by its cleaned texts. */
  datatype Kind = Skipped | TableRow | TitleBlock | Unexpected

  function KindOf(t: seq<string>): Kind {
    if AllEmpty(t) then Skipped
    else if |t| == 8 then TableRow
    else if |t| == 17 then TitleBlock
    else Unexpected
  }

  /** The row dict of an eight-attribute block: the texts zipped with the
      field names, then the rounded insertion point. */
  function TableRowOf(t: seq<string>, b: Block): Row
    requires |t| == 8
  {
    Row(t[0], t[1], t[2], t[3], t[4], t[5], t[6], t[7], Some(Round(b.x)), Some(Round(b.y)), None)
  }

  /** What the block loop has built: dxf_data["info"], dxf_data_list, the
      page counter 文件个数 (0 while the key is absent) and 部件编号. */
  datatype Extract = Extract(info: seq<Msg>, rows: seq<Row>, pageCount: nat, partNumber: Option<string>)

  /** One iteration of the block loop. */
  function Dispatch(e: Extract, b: Block, gbk: GbkDecoder): Extract {
    var t := Cleaned(b, gbk);
    match KindOf(t)
    case Skipped => e
    case TableRow => e.(rows := e.rows + [TableRowOf(t, b)])
    case TitleBlock =>
      if NonEmptyText(e.partNumber) then
        e.(pageCount := e.pageCount + 1,
           info := e.info + if e.partNumber.value != t[1] then [PartNumberMismatch(e.partNumber.value, t[1])] else [])
      else e.(pageCount := e.pageCount + 1, partNumber := Some(t[1]))
    case Unexpected => e.(info := e.info + [UnexpectedAttributeCount(t)])
  }

  /** The block loop over the blocks in drawing order. */
  function DispatchAll(bs: seq<Block>, gbk: GbkDecoder): Extract {
    if bs == [] then Extract([], [], 0, None)
    else Dispatch(DispatchAll(bs[..|bs| - 1], gbk), bs[|bs| - 1], gbk)
  }

  // ---------------------------------------------------------------------------
  // The position sort

  /** The sort key (x, -y) of a row; every row the block loop builds carries
      both coordinates. */
  function PositionKey(r: Row): (int, int) {
    (if r.x.Some? then r.x.value else 0, if r.y.Some? then -r.y.value else 0)
  }

  /** Tuple order on sort keys. */
  predicate KeyLe(a: (int, int), b: (int, int)) {
    a.0 < b.0 || (a.0 == b.0 && a.1 <= b.1)
  }

  /** Ascending x, and descending y among equal x. */
  predicate SortedByPosition(s: seq<Row>) {
    forall i, j :: 0 <= i < j < |s| ==> KeyLe(PositionKey(s[i]), PositionKey(s[j]))
  }

  /** r placed in front of the first row whose key is not smaller. */
  function InsertRow(r: Row, t: seq<Row>): (u: seq<Row>)
    ensures multiset(u) == multiset(t) + multiset{r}
  {
    if t == [] || KeyLe(PositionKey(r), PositionKey(t[0])) then [r] + t
    else
      assert t == [t[0]] + t[1..];
      [t[0]] + InsertRow(r, t[1..])
  }

  /** list.sort(key=lambda x: (x["x"], -x["y"])): a stable sort, here by
      insertion from the back. */
  function SortRows(s: seq<Row>): (u: seq<Row>)
    ensures multiset(u) == multiset(s)
  {
    if s == [] then []
    else
      assert s == [s[0]] + s[1..];
      InsertRow(s[0], SortRows(s[1..]))
  }

  /** The rows with sort key k, in their order. */
  function WithKey(s: seq<Row>, k: (int, int)): seq<Row> {
    if s == [] then [] else (if PositionKey(s[0]) == k then [s[0]] else []) + WithKey(s[1..], k)
  }

  lemma {:induction false} InsertRowSorted(r: Row, t: seq<Row>)
    requires SortedByPosition(t)
    ensures SortedByPosition(InsertRow(r, t))
  {
    if t == [] || KeyLe(PositionKey(r), PositionKey(t[0])) {
    } else {
      InsertRowSorted(r, t[1..]);
      var u := InsertRow(r, t[1..]);
      forall x | x in u ensures KeyLe(PositionKey(t[0]), PositionKey(x)) {
        assert x in multiset(u);
        if x != r {
          assert x in multiset(t[1..]);
        }
      }
    }
  }

  lemma {:induction false} InsertRowWithKey(r: Row, t: seq<Row>, k: (int, int))
    ensures WithKey(InsertRow(r, t), k) == (if PositionKey(r) == k then [r] else []) + WithKey(t, k)
  {
    if t == [] || KeyLe(PositionKey(r), PositionKey(t[0])) {
      assert ([r] + t)[1..] == t;
    } else {
      InsertRowWithKey(r, t[1..], k);
      assert ([t[0]] + InsertRow(r, t[1..]))[1..] == InsertRow(r, t[1..]);
    }
  }

  /** The sort orders the rows by position, permutes them, and keeps rows at
      the same position in their original order. */
  lemma {:induction false} SortRowsStable(s: seq<Row>)
    ensures SortedByPosition(SortRows(s))
    ensures multiset(SortRows(s)) == multiset(s)
    ensures forall k :: WithKey(SortRows(s), k) == WithKey(s, k)
  {
    if s != [] {
      SortRowsStable(s[1..]);
      InsertRowSorted(s[0], SortRows(s[1..]));
      forall k ensures WithKey(SortRows(s), k) == WithKey(s, k) {
        InsertRowWithKey(s[0], SortRows(s[1..]), k);
      }
    }
  }

  // ---------------------------------------------------------------------------
  // What the block loop builds, stated block by block in drawing order

  /** What one block adds to each of the collections below. */
  function RowOf(b: Block, gbk: GbkDecoder): seq<Row> {
    var t := Cleaned(b, gbk);
    if KindOf(t) == TableRow then [TableRowOf(t, b)] else []
  }

  function NumberOf(b: Block, gbk: GbkDecoder): seq<string> {
    var t := Cleaned(b, gbk);
    if KindOf(t) == TitleBlock then [t[1]] else []
  }

  function UnexpectedOf(b: Block, gbk: GbkDecoder): seq<seq<string>> {
    var t := Cleaned(b, gbk);
    if KindOf(t) == Unexpected then [t] else []
  }

  /** The rows of the eight-attribute blocks, in drawing order. */
  function TableRows(bs: seq<Block>, gbk: GbkDecoder): seq<Row> {
    if bs == [] then [] else TableRows(bs[..|bs| - 1], gbk) + RowOf(bs[|bs| - 1], gbk)
  }

  /** attr_text_list[1] of each seventeen-attribute block, in drawing order. */
  function TitleNumbers(bs: seq<Block>, gbk: GbkDecoder): seq<string> {
    if bs == [] then [] else TitleNumbers(bs[..|bs| - 1], gbk) + NumberOf(bs[|bs| - 1], gbk)
  }

  /** The cleaned texts of the blocks with any other attribute count. */
  function UnexpectedTexts(bs: seq<Block>, gbk: GbkDecoder): seq<seq<string>> {
    if bs == [] then [] else UnexpectedTexts(bs[..|bs| - 1], gbk) + UnexpectedOf(bs[|bs| - 1], gbk)
  }

  /** The position of the first non-empty part number. */
  function FirstNamed(ns: seq<string>): (i: Option<nat>)
    ensures i.Some? ==> i.value < |ns| && ns[i.value] != "" && forall j :: 0 <= j < i.value ==> ns[j] == ""
    ensures i.None? ==> forall j :: 0 <= j < |ns| ==> ns[j] == ""
  {
    if ns == [] then None
    else if ns[0] != "" then Some(0)
    else match FirstNamed(ns[1..])
      case None => None
      case Some(j) => Some(j + 1)
  }

  lemma {:induction false} FirstNamedAt(ns: seq<string>, i: nat)
    requires i < |ns| && ns[i] != "" && forall j :: 0 <= j < i ==> ns[j] == ""
    ensures FirstNamed(ns) == Some(i)
  {
    if i > 0 {
      FirstNamedAt(ns[1..], i - 1);
    }
  }

  /** 部件编号 after title blocks with part numbers ns: absent without any
      title block, else the first non-empty number, else "". */
  function PartNumberOf(ns: seq<string>): Option<string> {
    if ns == [] then None
    else match FirstNamed(ns)
      case Some(i) => Some(ns[i])
      case None => Some("")
  }

  /** One warning per later title block whose number differs from p. */
  function Differing(p: string, us: seq<string>): seq<Msg> {
    if us == [] then [] else Warning(p, us[0]) + Differing(p, us[1..])
  }

  /** The warning a title block with number u draws when p is stored. */
  function Warning(p: string, u: string): seq<Msg> {
    if u != p then [PartNumberMismatch(p, u)] else []
  }

  /** The mismatch warnings of title blocks with part numbers ns: one for
      every block after the first named one whose number differs from it. */
  function MismatchesOf(ns: seq<string>): seq<Msg> {
    match FirstNamed(ns)
    case None => []
    case Some(p) => Differing(ns[p], ns[p + 1..])
  }

  lemma {:induction false} DifferingAppend(p: string, us: seq<string>, u: string)
    ensures Differing(p, us + [u]) == Differing(p, us) + Warning(p, u)
  {
    if us == [] {
      assert [u][1..] == [];
    } else {
      var vs := us + [u];
      assert vs[0] == us[0] && vs[1..] == us[1..] + [u];
      DifferingAppend(p, us[1..], u);
      assert Differing(p, vs) == Warning(p, us[0]) + (Differing(p, us[1..]) + Warning(p, u));
    }
  }

  /** One more title block changes the stored number and the warnings as
      the loop body does. */
  lemma TitleStep(ns: seq<string>, n: string)
    ensures PartNumberOf(ns + [n]) == if NonEmptyText(PartNumberOf(ns)) then PartNumberOf(ns) else Some(n)
    ensures MismatchesOf(ns + [n]) == MismatchesOf(ns)
      + if NonEmptyText(PartNumberOf(ns)) && PartNumberOf(ns).value != n
        then [PartNumberMismatch(PartNumberOf(ns).value, n)] else []
  {
    var ms := ns + [n];
    match FirstNamed(ns)
    case Some(p) =>
      FirstNamedAt(ms, p);
      assert ms[p + 1..] == ns[p + 1..] + [n];
      DifferingAppend(ns[p], ns[p + 1..], n);
    case None =>
      if n != "" {
        FirstNamedAt(ms, |ns|);
        assert ms[|ns| + 1..] == [];
      } else {
        assert FirstNamed(ms).None?;
      }
  }

  /** The warnings in an info list, in their order. */
  function MismatchMsgs(info: seq<Msg>): seq<Msg> {
    if info == [] then []
    else MismatchMsgs(info[..|info| - 1]) + (if info[|info| - 1].PartNumberMismatch? then [info[|info| - 1]] else [])
  }

  /** The attribute lists of the unexpected-count errors in an info list. */
  function UnexpectedMsgs(info: seq<Msg>): seq<seq<string>> {
    if info == [] then []
    else
      var last := info[|info| - 1];
      UnexpectedMsgs(info[..|info| - 1]) + (if last.UnexpectedAttributeCount? then [last.attributes] else [])
  }

  lemma MsgsAppend(info: seq<Msg>, m: Msg)
    ensures MismatchMsgs(info + [m]) == MismatchMsgs(info) + (if m.PartNumberMismatch? then [m] else [])
    ensures UnexpectedMsgs(info + [m]) == UnexpectedMsgs(info) + (if m.UnexpectedAttributeCount? then [m.attributes] else [])
  {
    assert (info + [m])[..|info|] == info;
  }

  /** The last block's iteration of the loop. */
  lemma DispatchAllLast(bs: seq<Block>, gbk: GbkDecoder)
    requires bs != []
    ensures DispatchAll(bs, gbk) == Dispatch(DispatchAll(bs[..|bs| - 1], gbk), bs[|bs| - 1], gbk)
  {
  }

  /** The rows are those of the eight-attribute blocks, in drawing order. */
  lemma {:induction false} DispatchRows(bs: seq<Block>, gbk: GbkDecoder)
    ensures DispatchAll(bs, gbk).rows == TableRows(bs, gbk)
  {
    if bs != [] {
      DispatchAllLast(bs, gbk);
      DispatchRows(bs[..|bs| - 1], gbk);
      DispatchRowsStep(DispatchAll(bs[..|bs| - 1], gbk), bs[|bs| - 1], gbk);
    }
  }

  lemma DispatchRowsStep(e: Extract, b: Block, gbk: GbkDecoder)
    ensures Dispatch(e, b, gbk).rows == e.rows + RowOf(b, gbk)
  {
  }

  /** The page counter counts the seventeen-attribute blocks, and 部件编号 is
      the first non-empty part number among them. */
  lemma {:induction false} DispatchTitles(bs: seq<Block>, gbk: GbkDecoder)
    ensures DispatchAll(bs, gbk).pageCount == |TitleNumbers(bs, gbk)|
    ensures DispatchAll(bs, gbk).partNumber == PartNumberOf(TitleNumbers(bs, gbk))
  {
    if bs != [] {
      DispatchAllLast(bs, gbk);
      DispatchTitles(bs[..|bs| - 1], gbk);
      DispatchTitlesStep(DispatchAll(bs[..|bs| - 1], gbk), bs[|bs| - 1], gbk, TitleNumbers(bs[..|bs| - 1], gbk));
    }
  }

  lemma DispatchTitlesStep(e: Extract, b: Block, gbk: GbkDecoder, ns: seq<string>)
    requires e.pageCount == |ns| && e.partNumber == PartNumberOf(ns)
    ensures Dispatch(e, b, gbk).pageCount == |ns + NumberOf(b, gbk)|
    ensures Dispatch(e, b, gbk).partNumber == PartNumberOf(ns + NumberOf(b, gbk))
  {
    var t := Cleaned(b, gbk);
    if KindOf(t) == TitleBlock {
      TitleStep(ns, t[1]);
    } else {
      assert ns + [] == ns;
    }
  }

  /** One iteration keeps the messages in step with the title numbers ns
      and the unexpected texts us of the blocks so far. */
  lemma DispatchMsgsStep(e: Extract, b: Block, gbk: GbkDecoder, ns: seq<string>, us: seq<seq<string>>)
    requires e.partNumber == PartNumberOf(ns)
    requires MismatchMsgs(e.info) == MismatchesOf(ns) && UnexpectedMsgs(e.info) == us
    requires |e.info| == |MismatchMsgs(e.info)| + |UnexpectedMsgs(e.info)|
    ensures var info := Dispatch(e, b, gbk).info;
      && MismatchMsgs(info) == MismatchesOf(ns + NumberOf(b, gbk))
      && UnexpectedMsgs(info) == us + UnexpectedOf(b, gbk)
      && |info| == |MismatchMsgs(info)| + |UnexpectedMsgs(info)|
  {
    var t := Cleaned(b, gbk);
    match KindOf(t)
    case Skipped =>
      assert ns + [] == ns && us + [] == us;
    case TableRow =>
      assert ns + [] == ns && us + [] == us;
    case TitleBlock =>
      assert us + [] == us;
      TitleStep(ns, t[1]);
      if NonEmptyText(e.partNumber) && e.partNumber.value != t[1] {
        MsgsAppend(e.info, PartNumberMismatch(e.partNumber.value, t[1]));
      } else {
        assert Dispatch(e, b, gbk).info == e.info;
      }
    case Unexpected =>
      assert ns + [] == ns;
      MsgsAppend(e.info, UnexpectedAttributeCount(t));
  }

  /** Every message is either a warning for a later title block with a
      different part number or an error for a block with an unexpected
      attribute count, each kind in drawing order. */
  lemma {:induction false} DispatchMsgs(bs: seq<Block>, gbk: GbkDecoder)
    ensures var info := DispatchAll(bs, gbk).info;
      && MismatchMsgs(info) == MismatchesOf(TitleNumbers(bs, gbk))
      && UnexpectedMsgs(info) == UnexpectedTexts(bs, gbk)
      && |info| == |MismatchMsgs(info)| + |UnexpectedMsgs(info)|
  {
    if bs != [] {
      var init := bs[..|bs| - 1];
      DispatchAllLast(bs, gbk);
      DispatchMsgs(init, gbk);
      DispatchTitles(init, gbk);
      DispatchMsgsStep(DispatchAll(init, gbk), bs[|bs| - 1], gbk, TitleNumbers(init, gbk), UnexpectedTexts(init, gbk));
    }
  }


  // ---------------------------------------------------------------------------
  // dxf2dict

  /** dxf_data up to the part count; the project information merged in
      afterwards is not part of this model. */
  datatype DxfData = DxfData(info: seq<Msg>, data: seq<Row>, partCount: nat, pageCount: nat, partNumber: Option<string>)

  function DxfResult(blocks: seq<Block>, gbk: GbkDecoder): DxfData {
    var e := DispatchAll(blocks, gbk);
    var data := SortRows(e.rows);
    DxfData(e.info, data, |data|, e.pageCount, e.partNumber)
  }

  /** What dxf2dict returns, stated on the blocks of the drawing: data holds
      exactly the rows of the eight-attribute blocks, sorted by ascending x
      and then descending y, rows at the same position keeping their drawing
      order; 零件数量 is their number; the page counter counts the
      seventeen-attribute blocks and 部件编号 is the first non-empty part
      number among them; the messages are the part-number warnings and the
      attribute-count errors, each kind in drawing order. */
  lemma DxfToDictOutcome(blocks: seq<Block>, gbk: GbkDecoder)
    ensures var d, rows, ns := DxfResult(blocks, gbk), TableRows(blocks, gbk), TitleNumbers(blocks, gbk);
      && SortedByPosition(d.data)
      && multiset(d.data) == multiset(rows)
      && (forall k :: WithKey(d.data, k) == WithKey(rows, k))
      && d.partCount == |rows|
      && d.pageCount == |ns|
      && d.partNumber == PartNumberOf(ns)
      && MismatchMsgs(d.info) == MismatchesOf(ns)
      && UnexpectedMsgs(d.info) == UnexpectedTexts(blocks, gbk)
      && |d.info| == |MismatchMsgs(d.info)| + |UnexpectedMsgs(d.info)|
  {
    var e := DispatchAll(blocks, gbk);
    DispatchRows(blocks, gbk);
    DispatchTitles(blocks, gbk);
    DispatchMsgs(blocks, gbk);
    SortRowsStable(e.rows);
    assert |SortRows(e.rows)| == |multiset(SortRows(e.rows))| == |multiset(e.rows)| == |e.rows|;
  }

  /** The attribute loop of one block: replace_sub on each text. */
  method CleanAttributes(block: Block, gbk: GbkDecoder) returns (texts: seq<string>)
    ensures texts == Cleaned(block, gbk)
  {
    texts := [];
    for j := 0 to |block.attributes|
      invariant texts == Cleaned(block, gbk)[..j]
    {
      texts := texts + [ReplaceSub(block.attributes[j], gbk)];
    }
  }

  /** The block loop, the position sort and the part count of dxf2dict. */
  method DxfToDict(blocks: seq<Block>, gbk: GbkDecoder) returns (d: DxfData)
    ensures d == DxfResult(blocks, gbk)
  {
    var info: seq<Msg> := [];
    var rows: seq<Row> := [];
    var pageCount: nat := 0;
    var partNumber: Option<string> := None;
    for i := 0 to |blocks|
      invariant Extract(info, rows, pageCount, partNumber) == DispatchAll(blocks[..i], gbk)
    {
      var block := blocks[i];
      var texts := CleanAttributes(block, gbk);
      assert blocks[..i + 1][..i] == blocks[..i];
      DispatchAllLast(blocks[..i + 1], gbk);
      if !AllEmpty(texts) {
        if |texts| == 8 {
          rows := rows + [TableRowOf(texts, block)];
        } else if |texts| == 17 {
          pageCount := pageCount + 1;
          if NonEmptyText(partNumber) {
            if partNumber.value != texts[1] {
              info := info + [PartNumberMismatch(partNumber.value, texts[1])];
            }
          } else {
            partNumber := Some(texts[1]);
          }
        } else {
          info := info + [UnexpectedAttributeCount(texts)];
        }
      }
    }
    assert blocks[..|blocks|] == blocks;
    var data := SortRows(rows);
    d := DxfData(info, data, |data|, pageCount, partNumber);
  }
}
