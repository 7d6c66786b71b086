/** The string operations the keydb parser is made of, and hexadecimal. */
module Text {
  import opened Wrappers
  import opened Bytes

  /** The Unicode White_Space property, as `trim` and `split_whitespace` use it. */
  predicate IsSpace(c: char) {
    var v := c as int;
    || 0x09 <= v <= 0x0D || v == 0x20 || v == 0x85 || v == 0xA0 || v == 0x1680
    || 0x2000 <= v <= 0x200A || v == 0x2028 || v == 0x2029 || v == 0x202F || v == 0x205F || v == 0x3000
  }

  /** The 25 code points with the Unicode White_Space property. */
  lemma SpaceExact(c: char)
    ensures var points :=
        {0x09, 0x0A, 0x0B, 0x0C, 0x0D, 0x20, 0x85, 0xA0, 0x1680, 0x2000, 0x2001, 0x2002, 0x2003, 0x2004, 0x2005,
         0x2006, 0x2007, 0x2008, 0x2009, 0x200A, 0x2028, 0x2029, 0x202F, 0x205F, 0x3000};
      IsSpace(c) <==> c as int in points
  {
  }

  function TrimStart(s: string): string {
    if s != [] && IsSpace(s[0]) then TrimStart(s[1..]) else s
  }

  function TrimEnd(s: string): string {
    if s != [] && IsSpace(s[|s| - 1]) then TrimEnd(s[..|s| - 1]) else s
  }

  function Trim(s: string): string {
    TrimEnd(TrimStart(s))
  }

  /** Index of the first `c`, or the length. */
  function Find(s: string, c: char): (i: nat)
    ensures i <= |s| && c !in s[..i] && (i < |s| ==> s[i] == c)
  {
    if s == [] || s[0] == c then 0
    else
      var i := Find(s[1..], c);
      assert s[..i + 1] == [s[0]] + s[1..][..i];
      i + 1
  }

  function Before(s: string, c: char): string {
    s[..Find(s, c)]
  }

  function Split(s: string, c: char): (segs: seq<string>)
    ensures segs != []
    decreases |s|
  {
    var i := Find(s, c);
    if i == |s| then [s] else [s[..i]] + Split(s[i + 1..], c)
  }

  function TrimAll(segs: seq<string>): (r: seq<string>)
    ensures |r| == |segs|
  {
    seq(|segs|, i requires 0 <= i < |segs| => Trim(segs[i]))
  }

  /** What follows the last `c`; all of `s` if there is none. */
  function AfterLast(s: string, c: char): string
    decreases |s|
  {
    var i := Find(s, c);
    if i == |s| then s else AfterLast(s[i + 1..], c)
  }

  function DropCr(s: string): string {
    if s != [] && s[|s| - 1] == '\r' then s[..|s| - 1] else s
  }

  /** `lines`: no line after a final newline, and a carriage return before a newline goes. */
  function Lines(s: string): seq<string>
    decreases |s|
  {
    if s == [] then []
    else
      var i := Find(s, '\n');
      if i == |s| then [s] else [DropCr(s[..i])] + Lines(s[i + 1..])
  }

  /** Length of the leading run of non-space characters. */
  function WordLen(s: string): (n: nat)
    ensures n <= |s| && (n < |s| ==> IsSpace(s[n])) && (forall i :: 0 <= i < n ==> !IsSpace(s[i]))
  {
    if s == [] || IsSpace(s[0]) then 0 else 1 + WordLen(s[1..])
  }

  /** `split_whitespace`. */
  function Words(s: string): seq<string>
    decreases |s|
  {
    if s == [] then []
    else if IsSpace(s[0]) then Words(s[1..])
    else [s[..WordLen(s)]] + Words(s[WordLen(s)..])
  }

  predicate StartsWith(s: string, p: string) {
    p <= s
  }

  /** Strip one leading `0x` or `0X`. */
  function Strip0x(s: string): string {
    if StartsWith(s, "0x") || StartsWith(s, "0X") then s[2..] else s
  }

  function HexDigit(c: char): (d: Option<nat>)
    ensures d.Some? ==> d.value < 16
  {
    if '0' <= c <= '9' then Some(c as int - '0' as int)
    else if 'a' <= c <= 'f' then Some(c as int - 'a' as int + 10)
    else if 'A' <= c <= 'F' then Some(c as int - 'A' as int + 10)
    else None
  }

  /** `hex::decode`: an even number of hexadecimal digits, two to a byte. */
  function HexDecode(s: string): Option<seq<byte>> {
    if s == [] then Some([])
    else if |s| == 1 then None
    else
      var hi, lo := HexDigit(s[0]), HexDigit(s[1]);
      if hi.None? || lo.None? then None
      else match HexDecode(s[2..])
        case None => None
        case Some(rest) => Some([Low8(16 * hi.value + lo.value)] + rest)
  }

  function HexVec(s: string): Option<seq<byte>> {
    HexDecode(Strip0x(Trim(s)))
  }

  function HexBlock(s: string): Option<Block> {
    match HexVec(s)
    case None => None
    case Some(v) => if |v| == 16 then Some(v) else None
  }

  // ---------- trimming ----------

  /** Nothing to trim. */
  predicate Tight(s: string) {
    s == [] || (!IsSpace(s[0]) && !IsSpace(s[|s| - 1]))
  }

  lemma TrimTight(s: string)
    requires Tight(s)
    ensures Trim(s) == s
  {
  }

  lemma TrimEndSpace(s: string, c: char)
    requires IsSpace(c)
    ensures TrimEnd(s + [c]) == TrimEnd(s)
  {
    assert (s + [c])[..|s|] == s;
  }

  lemma {:induction false} TrimStartEnd(s: string, c: char)
    requires IsSpace(c)
    ensures TrimEnd(TrimStart(s + [c])) == TrimEnd(TrimStart(s))
  {
    if s != [] && IsSpace(s[0]) {
      TrimStartEnd(s[1..], c);
      assert (s + [c])[1..] == s[1..] + [c];
    } else if s == [] {
      assert (s + [c])[1..] == [];
    } else {
      assert TrimStart(s + [c]) == s + [c];
      TrimEndSpace(s, c);
    }
  }

  /** One space on either side makes no difference. */
  lemma TrimPadded(s: string)
    ensures Trim(" " + s) == Trim(s)
    ensures Trim(" " + s + " ") == Trim(s)
  {
    assert (" " + s)[1..] == s;
    TrimStartEnd(" " + s, ' ');
  }

  lemma {:induction false} TrimEndIdempotent(s: string)
    ensures TrimEnd(s) == [] || !IsSpace(TrimEnd(s)[|TrimEnd(s)| - 1])
    ensures TrimEnd(s) <= s
  {
    if s != [] && IsSpace(s[|s| - 1]) { TrimEndIdempotent(s[..|s| - 1]); }
  }

  lemma {:induction false} TrimStartIdempotent(s: string)
    ensures TrimStart(s) == [] || !IsSpace(TrimStart(s)[0])
  {
    if s != [] && IsSpace(s[0]) { TrimStartIdempotent(s[1..]); }
  }

  /** Trimming leaves nothing to trim. */
  lemma TrimIsTight(s: string)
    ensures Tight(Trim(s)) && Trim(Trim(s)) == Trim(s)
  {
    TrimStartIdempotent(s);
    TrimEndIdempotent(TrimStart(s));
    TrimTight(Trim(s));
  }

  /** All characters are white space. */
  predicate Blank(s: string) {
    forall c <- s :: IsSpace(c)
  }

  lemma {:induction false} TrimStartExact(s: string) returns (pre: string)
    ensures s == pre + TrimStart(s) && Blank(pre)
  {
    pre := "";
    if s != [] && IsSpace(s[0]) {
      var more := TrimStartExact(s[1..]);
      pre := [s[0]] + more;
    }
  }

  lemma {:induction false} TrimEndExact(s: string) returns (post: string)
    ensures s == TrimEnd(s) + post && Blank(post)
  {
    post := "";
    if s != [] && IsSpace(s[|s| - 1]) {
      var more := TrimEndExact(s[..|s| - 1]);
      post := more + [s[|s| - 1]];
      assert s == s[..|s| - 1] + [s[|s| - 1]];
    }
  }

  /** Trimming removes white space at both ends, all of it, and nothing else. */
  lemma TrimExact(s: string) returns (pre: string, post: string)
    ensures s == pre + Trim(s) + post && Blank(pre) && Blank(post) && Tight(Trim(s))
  {
    pre := TrimStartExact(s);
    post := TrimEndExact(TrimStart(s));
    TrimIsTight(s);
    assert pre + (Trim(s) + post) == pre + Trim(s) + post;
  }

  /** A carriage return at the end of a line is gone once the line is trimmed. */
  lemma TrimDropCr(s: string)
    ensures Trim(DropCr(s)) == Trim(s)
  {
    if s != [] && s[|s| - 1] == '\r' {
      assert s == s[..|s| - 1] + ['\r'];
      TrimStartEnd(s[..|s| - 1], '\r');
    }
  }

  // ---------- splitting ----------

  lemma {:induction false} FindAt(a: string, c: char, rest: string)
    requires c !in a
    ensures Find(a + [c] + rest, c) == |a|
    ensures Find(a, c) == |a|
  {
    if a != [] {
      FindAt(a[1..], c, rest);
      assert (a + [c] + rest)[1..] == a[1..] + [c] + rest;
    }
  }

  lemma SplitAt(a: string, c: char, rest: string)
    requires c !in a
    ensures Split(a + [c] + rest, c) == [a] + Split(rest, c)
    ensures Split(a, c) == [a]
  {
    FindAt(a, c, rest);
    var s := a + [c] + rest;
    assert s[..|a|] == a && s[|a| + 1..] == rest;
  }

  function JoinWith(segs: seq<string>, c: char): string
    requires segs != []
  {
    if |segs| == 1 then segs[0] else segs[0] + [c] + JoinWith(segs[1..], c)
  }

  lemma JoinCons(a: string, rest: seq<string>, c: char)
    requires rest != []
    ensures JoinWith([a] + rest, c) == a + [c] + JoinWith(rest, c)
  {
    assert ([a] + rest)[1..] == rest;
  }

  /** Splitting is exact: no segment holds the separator, and joining restores the text. */
  lemma {:induction false} SplitExact(s: string, c: char)
    ensures JoinWith(Split(s, c), c) == s && forall seg <- Split(s, c) :: c !in seg
    decreases |s|
  {
    var i := Find(s, c);
    if i == |s| {
      assert s[..i] == s;
    } else {
      SplitExact(s[i + 1..], c);
      var rest := Split(s[i + 1..], c);
      JoinCons(s[..i], rest, c);
      assert s == s[..i] + [c] + s[i + 1..];
    }
  }

  /** `xs` between bars: `" x | y | z"`. */
  function Bar(xs: seq<string>): string
    requires xs != []
  {
    if |xs| == 1 then " " + xs[0] else " " + xs[0] + " " + "|" + Bar(xs[1..])
  }

  lemma TrimAllCons(a: string, segs: seq<string>)
    ensures TrimAll([a] + segs) == [Trim(a)] + TrimAll(segs)
  {
  }

  lemma {:induction false} SplitBar(xs: seq<string>)
    requires xs != [] && forall x <- xs :: '|' !in x
    ensures TrimAll(Split(Bar(xs), '|')) == TrimAll(xs)
  {
    TrimPadded(xs[0]);
    if |xs| == 1 {
      SplitAt(" " + xs[0], '|', "");
      TrimAllCons(" " + xs[0], []);
      TrimAllCons(xs[0], []);
      assert xs == [xs[0]] + [];
      assert [" " + xs[0]] + [] == [" " + xs[0]];
    } else {
      var a := " " + xs[0] + " ";
      SplitBar(xs[1..]);
      SplitAt(a, '|', Bar(xs[1..]));
      assert Bar(xs) == a + ['|'] + Bar(xs[1..]);
      TrimAllCons(a, Split(Bar(xs[1..]), '|'));
      TrimAllCons(xs[0], xs[1..]);
      assert xs == [xs[0]] + xs[1..];
    }
  }

  lemma LinesAt(a: string, rest: string)
    requires '\n' !in a
    ensures Lines(a + "\n" + rest) == [DropCr(a)] + Lines(rest)
  {
    FindAt(a, '\n', rest);
    var s := a + ['\n'] + rest;
    assert a + "\n" + rest == s && s[..|a|] == a && s[|a| + 1..] == rest;
  }

  lemma Regroup(head: string, tail: string, b: string)
    ensures (head + "\n" + tail) + "\n" + b == head + "\n" + (tail + "\n" + b)
    ensures (head + "\n" + tail) + "\n" == head + "\n" + (tail + "\n")
  {
  }

  /** A line ends at a newline, with or without one carriage return before it, or at the end of
      the text. */
  lemma LineEndings(a: string, rest: string)
    requires '\n' !in a
    ensures a == "" || a[|a| - 1] != '\r' ==> Lines(a + "\n" + rest) == [a] + Lines(rest)
    ensures Lines(a + "\r" + "\n" + rest) == [a] + Lines(rest)
    ensures a != "" ==> Lines(a) == [a]
  {
    hide Lines;
    LinesAt(a, rest);
    LinesAt(a + "\r", rest);
    LastLine(a);
  }

  lemma LastLine(a: string)
    requires '\n' !in a
    ensures a != "" ==> Lines(a) == [a]
  {
    FindAt(a, '\n', "");
  }

  /** Lines of a text cut at a newline. */
  lemma {:induction false} LinesAppend(a: string, b: string)
    ensures Lines(a + "\n" + b) == Lines(a + "\n") + Lines(b)
    decreases |a|
  {
    hide Lines;
    var i := Find(a, '\n');
    if i == |a| {
      assert a[..i] == a;
      LinesAt(a, b);
      LinesAt(a, "");
      NoLines();
      assert a + "\n" + "" == a + "\n";
      assert [DropCr(a)] + [] == [DropCr(a)];
    } else {
      var head, tail := a[..i], a[i + 1..];
      assert a == head + "\n" + tail;
      Regroup(head, tail, b);
      LinesAppend(tail, b);
      LinesAt(head, tail + "\n" + b);
      LinesAt(head, tail + "\n");
      assert [DropCr(head)] + (Lines(tail + "\n") + Lines(b)) == [DropCr(head)] + Lines(tail + "\n") + Lines(b);
    }
  }

  lemma NoLines()
    ensures Lines("") == []
  {
  }

  // ---------- hexadecimal text ----------

  /** `c` is the hexadecimal digit `d`, in either case. */
  predicate IsDigitOf(c: char, d: nat)
    requires d < 16
  {
    c == "0123456789abcdef"[d] || c == "0123456789ABCDEF"[d]
  }

  lemma DigitExact(c: char, d: nat)
    requires d < 16
    ensures HexDigit(c) == Some(d) <==> IsDigitOf(c, d)
  {
  }

  /** `s` spells `v`: two digits to a byte, the high one first, the case of each left open. */
  ghost predicate Spells(s: string, v: seq<byte>) {
    |s| == 2 * |v| && forall i: nat :: i < |v| ==> SpellsByte(s[2 * i], s[2 * i + 1], v[i])
  }

  predicate SpellsByte(hi: char, lo: char, b: byte) {
    IsDigitOf(hi, (b as int) / 16) && IsDigitOf(lo, (b as int) % 16)
  }

  lemma Nibbles(h: nat, l: nat, n: nat)
    requires h < 16 && l < 16
    ensures 16 * h + l == n <==> h == n / 16 && l == n % 16
  {
  }

  lemma Low8Exact(n: nat, b: byte)
    requires n < 256
    ensures Low8(n) == b <==> n == b as int
  {
    Low8Value(n);
    if n == b as int { Low8OfByte(n, b); }
  }

  lemma PairValue(hi: Option<nat>, lo: Option<nat>, b: byte)
    requires (hi.Some? ==> hi.value < 16) && (lo.Some? ==> lo.value < 16)
    ensures hi == Some((b as int) / 16) && lo == Some((b as int) % 16) <==>
            hi.Some? && lo.Some? && Low8(16 * hi.value + lo.value) == b
  {
    hide Low8;
    var n: nat := b as int;
    if hi.Some? && lo.Some? {
      Nibbles(hi.value, lo.value, n);
      Low8Exact(16 * hi.value + lo.value, b);
    }
  }

  lemma PairExact(hi: char, lo: char, b: byte)
    ensures SpellsByte(hi, lo, b) <==>
      HexDigit(hi).Some? && HexDigit(lo).Some? && Low8(16 * HexDigit(hi).value + HexDigit(lo).value) == b
  {
    hide HexDigit, IsDigitOf, Low8;
    DigitExact(hi, (b as int) / 16);
    DigitExact(lo, (b as int) % 16);
    PairValue(HexDigit(hi), HexDigit(lo), b);
  }

  lemma SpellsCons(s: string, v: seq<byte>)
    requires |s| >= 2 && v != []
    ensures Spells(s, v) <==> SpellsByte(s[0], s[1], v[0]) && Spells(s[2..], v[1..])
  {
    hide SpellsByte;
    if SpellsByte(s[0], s[1], v[0]) && Spells(s[2..], v[1..]) {
      forall i: nat | i < |v|
        ensures SpellsByte(s[2 * i], s[2 * i + 1], v[i])
      {
        if i > 0 { assert SpellsByte(s[2..][2 * (i - 1)], s[2..][2 * (i - 1) + 1], v[1..][i - 1]); }
      }
    }
    if Spells(s, v) {
      assert SpellsByte(s[2 * 0], s[2 * 0 + 1], v[0]);
      forall i: nat | i < |v[1..]|
        ensures SpellsByte(s[2..][2 * i], s[2..][2 * i + 1], v[1..][i])
      {
        assert SpellsByte(s[2 * (i + 1)], s[2 * (i + 1) + 1], v[i + 1]);
      }
    }
  }

  /** Decoding is exact, case and all: a text decodes to the byte string it spells, and to
      nothing if it spells none. */
  lemma {:induction false} HexSpelling(s: string, v: seq<byte>)
    ensures HexDecode(s) == Some(v) <==> Spells(s, v)
    decreases |s|
  {
    if |s| >= 2 && v != [] {
      HexSpelling(s[2..], v[1..]);
      PairExact(s[0], s[1], v[0]);
      hide SpellsByte, Spells, HexDigit;
      SpellsCons(s, v);
      assert v == [v[0]] + v[1..];
    }
  }

  /** With white space around and an optional prefix, `0x` or `0X`. */
  lemma HexVecExact(s: string, v: seq<byte>)
    ensures HexVec(s) == Some(v) <==>
      exists t: string :: Spells(t, v) && (Trim(s) == t || Trim(s) == "0x" + t || Trim(s) == "0X" + t)
    ensures |v| == 16 ==> (HexBlock(s) == Some(v) <==> HexVec(s) == Some(v))
  {
    hide Trim, HexDecode, Spells;
    var u := Trim(s);
    HexSpelling(Strip0x(u), v);
    forall t: string | Spells(t, v) && (u == t || u == "0x" + t || u == "0X" + t)
      ensures Strip0x(u) == t
    {
      HexSpelling(t, v);
      if u == t {
        NoPrefix(t);
      } else {
        assert u[2..] == t && (u[..2] == "0x" || u[..2] == "0X");
      }
    }
    if Spells(Strip0x(u), v) && Strip0x(u) != u {
      assert u[..2] == "0x" || u[..2] == "0X";
      assert u == u[..2] + u[2..];
    }
  }

  /** Digits alone never look like a prefix. */
  lemma NoPrefix(t: string)
    requires HexDecode(t).Some?
    ensures Strip0x(t) == t
  {
    if |t| >= 2 { assert HexDigit(t[1]).Some?; }
  }

  /** How a value is written: the prefix, and which digits are in upper case. */
  datatype Prefix = Bare | Lower0x | Upper0X
  datatype HexStyle = HexStyle(prefix: Prefix, upper: set<nat>)

  const PLAIN := HexStyle(Lower0x, {})

  function HexChar(d: nat, upper: bool): (c: char)
    requires d < 16
    ensures IsDigitOf(c, d) && HexDigit(c) == Some(d)
  {
    if upper then "0123456789ABCDEF"[d] else "0123456789abcdef"[d]
  }

  function HexPair(b: byte, at: nat, upper: set<nat>): (s: string)
    ensures |s| == 2 && SpellsByte(s[0], s[1], b) && IsHexText(s)
  {
    [HexChar((b as int) / 16, at in upper), HexChar((b as int) % 16, at + 1 in upper)]
  }

  function HexEncode(v: seq<byte>, at: nat, upper: set<nat>): string {
    if v == [] then [] else HexPair(v[0], at, upper) + HexEncode(v[1..], at + 2, upper)
  }

  lemma {:induction false} EncodeSpells(v: seq<byte>, at: nat, upper: set<nat>)
    ensures Spells(HexEncode(v, at, upper), v)
  {
    hide SpellsByte;
    if v != [] {
      EncodeSpells(v[1..], at + 2, upper);
      var s := HexEncode(v, at, upper);
      assert s[2..] == HexEncode(v[1..], at + 2, upper);
      SpellsCons(s, v);
    }
  }

  lemma HexInverse(v: seq<byte>, at: nat, upper: set<nat>)
    ensures HexDecode(HexEncode(v, at, upper)) == Some(v)
  {
    EncodeSpells(v, at, upper);
    HexSpelling(HexEncode(v, at, upper), v);
  }

  lemma NoHex()
    ensures HexDecode([]) == Some([])
  {
  }

  /** Decoding is exact: it succeeds on an even number of digits of either case and nothing
      else, and each byte is its pair of digits. */
  lemma {:induction false} HexDecodeExact(s: string)
    ensures HexDecode(s).Some? <==> |s| % 2 == 0 && IsHexText(s)
    ensures HexDecode(s).Some? ==> |s| == 2 * |HexDecode(s).value|
    ensures HexDecode(s).Some? ==> forall i: nat :: 2 * i + 1 < |s| ==>
      HexDecode(s).value[i] == Low8(16 * HexDigit(s[2 * i]).value + HexDigit(s[2 * i + 1]).value)
    decreases |s|
  {
    hide Low8, HexDigit;
    if |s| >= 2 {
      var t := s[2..];
      HexDecodeExact(t);
      assert s == [s[0], s[1]] + t;
      assert s[0] in s && s[1] in s && forall c <- t :: c in s;
      if HexDecode(s).Some? {
        forall i: nat | 2 * i + 1 < |s|
          ensures HexDecode(s).value[i] == Low8(16 * HexDigit(s[2 * i]).value + HexDigit(s[2 * i + 1]).value)
        {
          if i > 0 { assert s[2 * i] == t[2 * (i - 1)] && s[2 * i + 1] == t[2 * (i - 1) + 1]; }
        }
      }
    } else if |s| == 1 {
      assert |s| % 2 == 1;
    }
  }

  predicate IsHexText(s: string) {
    forall c <- s :: HexDigit(c).Some?
  }

  lemma {:induction false} HexEncodeText(v: seq<byte>, at: nat, upper: set<nat>)
    ensures IsHexText(HexEncode(v, at, upper)) && |HexEncode(v, at, upper)| == 2 * |v|
  {
    if v != [] { HexEncodeText(v[1..], at + 2, upper); }
  }

  /** The prefix, without which an empty value could not be seen, and the digits. */
  function HexText(v: seq<byte>, style: HexStyle): string {
    (match style.prefix
     case Bare => if v == [] then "0x" else ""
     case Lower0x => "0x"
     case Upper0X => "0X")
    + HexEncode(v, 0, style.upper)
  }

  /** A token: something to read, and no blank or separator inside it. */
  predicate IsToken(s: string) {
    s != [] && forall c <- s :: !IsSpace(c) && c != '|' && c != ';' && c != '='
  }

  lemma HexDigitPlain(c: char)
    requires HexDigit(c).Some?
    ensures !IsSpace(c) && c != '|' && c != ';' && c != '=' && c != '-'
  {
  }

  lemma HexToken(v: seq<byte>, style: HexStyle)
    ensures IsToken(HexText(v, style)) && Tight(HexText(v, style)) && '-' !in HexText(v, style)
    ensures HexVec(HexText(v, style)) == Some(v)
    ensures |v| == 16 ==> HexBlock(HexText(v, style)) == Some(v)
  {
    var digits, s := HexEncode(v, 0, style.upper), HexText(v, style);
    HexEncodeText(v, 0, style.upper);
    EncodeSpells(v, 0, style.upper);
    hide HexEncode, HexDigit, HexVec, HexBlock, Spells;
    forall c | c in s
      ensures !IsSpace(c) && c != '|' && c != ';' && c != '=' && c != '-'
    {
      if c in digits { HexDigitPlain(c); }
    }
    assert s[0] in s && s[|s| - 1] in s;
    TrimTight(s);
    assert s == digits || s == "0x" + digits || s == "0X" + digits;
    HexVecExact(s, v);
  }

  // ---------- words ----------

  predicate IsWord(w: string) {
    w != "" && forall c <- w :: !IsSpace(c)
  }

  /** `s` begins, after white space `pre`, with the maximal word `w`; `rest` follows. */
  ghost predicate Begins(s: string, pre: string, w: string, rest: string) {
    s == pre + w + rest && Blank(pre) && IsWord(w) && (rest == "" || IsSpace(rest[0]))
  }

  /** `s` is the words `ws` set apart by white space. */
  ghost predicate SpreadOut(s: string, ws: seq<string>)
    decreases |ws|
  {
    if ws == [] then Blank(s)
    else exists pre: string, rest: string :: Begins(s, pre, ws[0], rest) && SpreadOut(rest, ws[1..])
  }

  /** Word splitting is exact: the words are the maximal runs without white space, in order. */
  lemma {:induction false} WordsExact(s: string)
    ensures SpreadOut(s, Words(s))
    decreases |s|
  {
    hide IsSpace;
    if s != "" {
      if IsSpace(s[0]) {
        WordsExact(s[1..]);
        assert s == [s[0]] + s[1..];
        SpreadAfterSpace(s[0], s[1..], Words(s[1..]));
      } else {
        var n := WordLen(s);
        WordsExact(s[n..]);
        SpreadIntro(s, "", s[..n], s[n..], Words(s[n..]));
      }
    }
  }

  lemma {:induction false} LeadingBlank(pre: string, s: string)
    requires Blank(pre)
    ensures Words(pre + s) == Words(s)
  {
    if pre == "" {
      assert pre + s == s;
    } else {
      assert pre[0] in pre && (pre + s)[1..] == pre[1..] + s;
      LeadingBlank(pre[1..], s);
    }
  }

  /** Only the words of a text are spread out in it. */
  lemma {:induction false} WordsUnique(s: string, ws: seq<string>)
    requires SpreadOut(s, ws)
    ensures ws == Words(s)
    decreases |ws|
  {
    hide IsSpace;
    if ws == [] {
      LeadingBlank(s, "");
      assert s + "" == s;
    } else {
      var pre: string, rest: string :| Begins(s, pre, ws[0], rest) && SpreadOut(rest, ws[1..]);
      assert s == pre + (ws[0] + rest);
      LeadingBlank(pre, ws[0] + rest);
      WordLenAt(ws[0], rest);
      var t := ws[0] + rest;
      assert ws[0][0] in ws[0] && t[0] == ws[0][0];
      assert t[..|ws[0]|] == ws[0] && t[|ws[0]|..] == rest;
      WordsUnique(rest, ws[1..]);
    }
  }

  lemma SpreadIntro(s: string, pre: string, w: string, rest: string, ws: seq<string>)
    requires Begins(s, pre, w, rest) && SpreadOut(rest, ws)
    ensures SpreadOut(s, [w] + ws)
  {
    var all := [w] + ws;
    assert all[0] == w && all[1..] == ws;
  }

  lemma SpreadAfterSpace(c: char, s: string, ws: seq<string>)
    requires IsSpace(c) && SpreadOut(s, ws)
    ensures SpreadOut([c] + s, ws)
  {
    hide IsSpace;
    if ws != [] {
      var pre: string, rest: string :| Begins(s, pre, ws[0], rest) && SpreadOut(rest, ws[1..]);
      assert [c] + s == ([c] + pre) + ws[0] + rest;
      SpreadIntro([c] + s, [c] + pre, ws[0], rest, ws[1..]);
      assert [ws[0]] + ws[1..] == ws;
    }
  }

  lemma {:induction false} WordLenAt(w: string, rest: string)
    requires forall c <- w :: !IsSpace(c)
    requires rest == [] || IsSpace(rest[0])
    ensures WordLen(w + rest) == |w|
  {
    if w == [] {
      assert w + rest == rest;
    } else {
      WordLenAt(w[1..], rest);
      assert (w + rest)[1..] == w[1..] + rest;
    }
  }

  lemma WordsCons(w: string, rest: string)
    requires w != [] && forall c <- w :: !IsSpace(c)
    ensures Words(w + " " + rest) == [w] + Words(rest)
    ensures Words(w) == [w]
  {
    var s := w + (" " + rest);
    assert w + " " + rest == s;
    WordLenAt(w, " " + rest);
    assert s[..|w|] == w && s[|w|..] == " " + rest && (" " + rest)[1..] == rest;
    WordLenAt(w, "");
    assert w + "" == w && w[..|w|] == w && w[|w|..] == "";
  }

  function Spaced(ws: seq<string>): string
    requires ws != []
  {
    if |ws| == 1 then ws[0] else ws[0] + " " + Spaced(ws[1..])
  }

  lemma {:induction false} WordsSpaced(ws: seq<string>)
    requires ws != [] && forall w <- ws :: IsToken(w)
    ensures Words(Spaced(ws)) == ws
  {
    assert ws[0] in ws;
    if |ws| == 1 {
      WordsCons(ws[0], "");
    } else {
      WordsSpaced(ws[1..]);
      WordsCons(ws[0], Spaced(ws[1..]));
      assert ws == [ws[0]] + ws[1..];
    }
  }

  lemma AfterLastAt(a: string, b: string, c: char)
    requires c !in a && c !in b
    ensures AfterLast(a + [c] + b, c) == b
  {
    FindAt(a, c, b);
    FindAt(b, c, "");
    var s := a + [c] + b;
    assert s[|a| + 1..] == b;
  }

  lemma AfterLastStep(s: string, c: char)
    ensures AfterLast(s, c) == if c in s then AfterLast(s[Find(s, c) + 1..], c) else s
    ensures Find(s, c) < |s| <==> c in s
  {
    hide Find;
    var i := Find(s, c);
    if i == |s| { assert s[..i] == s; } else { assert s[i] in s; }
  }

  /** A head that ends in `c` in front of what precedes the last `c`. */
  lemma HeadFirst(head: string, more: string, tail: string, c: char)
    requires head != "" && head[|head| - 1] == c
    requires more == "" || more[|more| - 1] == c
    ensures head + (more + tail) == (head + more) + tail
    ensures head + more != "" && (head + more)[|head + more| - 1] == c
  {
  }

  /** What follows the last separator, exactly. */
  lemma {:induction false} AfterLastExact(s: string, c: char) returns (pre: string)
    ensures c !in AfterLast(s, c) && s == pre + AfterLast(s, c)
    ensures if c in s then pre != "" && pre[|pre| - 1] == c else pre == ""
    decreases |s|
  {
    hide Find, AfterLast;
    AfterLastStep(s, c);
    pre := "";
    if c in s {
      var i := Find(s, c);
      var head, rest := s[..i + 1], s[i + 1..];
      var more := AfterLastExact(rest, c);
      assert s == head + rest;
      HeadFirst(head, more, AfterLast(rest, c), c);
      pre := head + more;
    }
  }
}
