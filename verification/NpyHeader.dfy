/** The text header of a stored array: written from its type and shape, and read back. Bytes are characters. */
module NpyHeader {
  import opened Words
  import opened Wrappers

  // ----- decimal numbers

  predicate IsDigit(c: char) {
    '0' <= c <= '9'
  }

  function Digit(d: nat): char
    requires d < 10
  {
    '0' + d as char
  }

  function ToString(n: nat): (s: string)
    ensures s != [] && forall i :: 0 <= i < |s| ==> IsDigit(s[i])
  {
    if n < 10 then [Digit(n)] else ToString(n / 10) + [Digit(n % 10)]
  }

  function Number(s: string): nat
    requires forall i :: 0 <= i < |s| ==> IsDigit(s[i])
  {
    if s == [] then 0 else
      var m := |s| - 1;
      assert IsDigit(s[m]);
      Number(s[..m]) * 10 + (s[m] as int - '0' as int)
  }

  lemma {:induction false} NumberToString(n: nat)
    ensures Number(ToString(n)) == n
  {
    var s := ToString(n);
    if n >= 10 {
      NumberToString(n / 10);
      assert s[..|s| - 1] == ToString(n / 10);
    } else {
      assert s[..0] == [];
    }
  }

  /** How many digits `s` begins with. */
  function Digits(s: string): (k: nat)
    ensures k <= |s| && (forall i :: 0 <= i < k ==> IsDigit(s[i])) && (k < |s| ==> !IsDigit(s[k]))
  {
    if s != [] && IsDigit(s[0]) then 1 + Digits(s[1..]) else 0
  }

  lemma {:induction false} DigitsThen(s: string, rest: string)
    requires (forall i :: 0 <= i < |s| ==> IsDigit(s[i])) && (rest == [] || !IsDigit(rest[0]))
    ensures Digits(s + rest) == |s|
  {
    if s != [] {
      assert (s + rest)[1..] == s[1..] + rest;
      DigitsThen(s[1..], rest);
    } else {
      assert s + rest == rest;
    }
  }

  /** All the numbers in a text: its longest runs of digits, in order. */
  function Numbers(s: string): seq<nat>
    decreases |s|
  {
    if s == [] then []
    else if IsDigit(s[0]) then var k := Digits(s); [Number(s[..k])] + Numbers(s[k..])
    else Numbers(s[1..])
  }

  lemma NumbersThen(n: nat, rest: string)
    requires rest == [] || !IsDigit(rest[0])
    ensures Numbers(ToString(n) + rest) == [n] + Numbers(rest)
  {
    var s := ToString(n);
    DigitsThen(s, rest);
    NumberToString(n);
    assert (s + rest)[..|s|] == s && (s + rest)[|s|..] == rest;
  }

  // ----- writing

  /** The bytes of an element, which the reader converts to an int. */
  type ElementSize = n: nat | n <= INT_MAX

  /** What the type of the elements puts into a header. */
  datatype ElementType = ElementType(order: char, kind: char, size: ElementSize)

  function MoreDimensions(shape: seq<nat>): (s: string)
    ensures s == [] || !IsDigit(s[0])
  {
    if shape == [] then [] else ", " + ToString(shape[0]) + MoreDimensions(shape[1..])
  }

  function ShapeText(shape: seq<nat>): string
    requires shape != []
  {
    ToString(shape[0]) + MoreDimensions(shape[1..]) + if |shape| == 1 then "," else ""
  }

  lemma {:induction false} MoreNumbers(shape: seq<nat>)
    ensures Numbers(MoreDimensions(shape)) == shape
    decreases |shape|
  {
    if shape != [] {
      var rest := ToString(shape[0]) + MoreDimensions(shape[1..]);
      var s := ", " + rest;
      assert MoreDimensions(shape) == s;
      assert s[1..] == " " + rest && s[1..][1..] == rest;
      NumbersThen(shape[0], MoreDimensions(shape[1..]));
      MoreNumbers(shape[1..]);
    }
  }

  /** The numbers in the text of a shape are the shape. */
  lemma ShapeNumbers(shape: seq<nat>)
    requires shape != []
    ensures Numbers(ShapeText(shape)) == shape
  {
    var more := MoreDimensions(shape[1..]);
    if |shape| == 1 {
      NumbersThen(shape[0], ",");
      assert ShapeText(shape) == ToString(shape[0]) + ",";
      assert ","[1..] == [];
    } else {
      NumbersThen(shape[0], more);
      MoreNumbers(shape[1..]);
      assert ShapeText(shape) == ToString(shape[0]) + more;
    }
  }

  const BEFORE_TYPE: string := "'" + "descr" + "': '"
  const AFTER_TYPE: string := "', '"
  const FORTRAN: string := "fortran_order" + "': "
  const SHAPE_KEY: string := "False" + ", 'shape': "
  const AFTER_SHAPE: string := ")" + ", }"

  function TypeText(t: ElementType): string {
    BEFORE_TYPE + [t.order, t.kind] + ToString(t.size) + AFTER_TYPE
  }

  function Dictionary(t: ElementType, shape: seq<nat>): string
    requires shape != []
  {
    "{" + (TypeText(t) + (FORTRAN + (SHAPE_KEY + ("(" + (ShapeText(shape) + AFTER_SHAPE)))))
  }

  function Spaces(n: nat): string {
    seq(n, _ => ' ')
  }

  /** How much is added: the header becomes a multiple of 16, and there is room for the end of the line. */
  function Padding(n: nat): (k: nat)
    ensures 1 <= k <= 16 && (10 + n + k) % 16 == 0
  {
    16 - (10 + n) % 16
  }

  function Line(t: ElementType, shape: seq<nat>): string
    requires shape != []
  {
    var d := Dictionary(t, shape);
    d + Spaces(Padding(|d|) - 1) + "\n"
  }

  const MAGIC: string := [0x93 as char, 'N', 'U', 'M', 'P', 'Y', 1 as char, 0 as char]

  /** A number in two bytes, low byte first. */
  function Two(x: nat): (s: string)
    ensures |s| == 2 && s[0] < 256 as char && s[1] < 256 as char
  {
    [(x % 256) as char, (x / 256 % 256) as char]
  }

  function Header(t: ElementType, shape: seq<nat>): string
    requires shape != []
  {
    MAGIC + Two(|Line(t, shape)|) + Line(t, shape)
  }

  method AddShape(text: string, shape: seq<nat>) returns (dict: string)
    requires shape != []
    ensures dict == text + ShapeText(shape)
  {
    hide ToString;
    dict := text + ToString(shape[0]);
    var i := 1;
    while i < |shape|
      invariant 1 <= i <= |shape|
      invariant dict + MoreDimensions(shape[i..]) == text + ToString(shape[0]) + MoreDimensions(shape[1..])
    {
      assert shape[i..][1..] == shape[i + 1..];
      assert dict + (", " + ToString(shape[i]) + MoreDimensions(shape[i + 1..]))
          == dict + ", " + ToString(shape[i]) + MoreDimensions(shape[i + 1..]);
      dict := dict + ", " + ToString(shape[i]);
      i := i + 1;
    }
    assert shape[i..] == [] && dict + [] == dict;
    ghost var first, more := ToString(shape[0]), MoreDimensions(shape[1..]);
    assert dict == text + first + more;
    assert text + first + more + "" == text + (first + more + "");
    assert text + first + more + "," == text + (first + more + ",");
    if |shape| == 1 {
      dict := dict + ",";
    }
  }

  /** The line is padded so that the whole header is a multiple of 16 long. */
  method PadLine(text: string) returns (dict: string)
    ensures dict == text + Spaces(Padding(|text|) - 1) + "\n"
  {
    var remainder := 16 - (10 + |text|) % 16;
    dict := text + Spaces(remainder);
    dict := dict[|dict| - 1 := '\n'];
  }

  lemma Regrouped(x: string, q: string, ok: string, size: string, m: string, f: string, k: string, p: string,
        dims: string, s: string)
    ensures x + q + ok + size + (m + f + k + p) + dims + s == x + ((q + ok + size + m) + (f + (k + (p + (dims + s)))))
  {
    Assoc(x, q, ok);
    Assoc(x, q + ok, size);
    var y := q + ok + size;
    Assoc(y, m, f + k + p);
    Assoc(m, f, k);
    Assoc(m, f + k, p);
    Assoc(x, y, m + f + k + p);
    var z := y + m;
    Assoc(f, k, p);
    Assoc(x, z + (f + (k + p)), dims);
    Assoc(x, z + (f + (k + p)) + dims, s);
    Assoc(z, f + (k + p), dims);
    Assoc(z, f + (k + p) + dims, s);
    Assoc(f, k + p, dims);
    Assoc(f, k + p + dims, s);
    Assoc(k, p, dims);
    Assoc(k, p + dims, s);
    Assoc(p, dims, s);
  }

  method CreateNpyHeader(t: ElementType, shape: seq<nat>) returns (header: string)
    requires shape != []
    ensures header == Header(t, shape) && |header| % 16 == 0
  {
    var dict := "{" + BEFORE_TYPE;
    dict := dict + [t.order, t.kind];
    dict := dict + ToString(t.size);
    dict := dict + (AFTER_TYPE + FORTRAN + SHAPE_KEY + "(");
    dict := AddShape(dict, shape);
    dict := dict + AFTER_SHAPE;
    Regrouped("{", BEFORE_TYPE, [t.order, t.kind], ToString(t.size), AFTER_TYPE, FORTRAN, SHAPE_KEY, "(",
        ShapeText(shape),
              AFTER_SHAPE);
    dict := PadLine(dict);
    header := MAGIC + Two(|dict|);
    header := header + dict;
  }

  // ----- reading

  /** The first place where `p` occurs in `s`. */
  function Find(s: string, p: string): (r: Option<nat>)
    ensures r.Some? ==> r.value + |p| <= |s|
    decreases |s|
  {
    if p <= s then Some(0)
    else if s == [] then None
    else
      var r := Find(s[1..], p);
      if r.Some? then Some(r.value + 1) else None
  }

  lemma {:induction false} FindFirst(s: string, p: string, i: nat)
    requires i <= |s| && p <= s[i..] && forall k :: 0 <= k < i ==> !(p <= s[k..])
    ensures Find(s, p) == Some(i)
    decreases i
  {
    if i > 0 {
      assert !(p <= s[0..]) && s[0..] == s;
      assert forall k :: 0 <= k < i ==> s[1..][k..] == s[k + 1..];
      FindFirst(s[1..], p, i - 1);
    } else {
      assert s[0..] == s;
    }
  }

  /** A pattern is found where it stands if one of its characters does not occur before. */
  lemma FindIn(a: string, p: string, b: string, o: nat, c: char)
    requires o < |p| && p[o] == c && c !in a && c !in p[..o]
    ensures Find(a + (p + b), p) == Some(|a|)
  {
    var s := a + (p + b);
    assert s[|a|..] == p + b;
    assert p <= s[|a|..];
    forall k | 0 <= k < |a| ensures !(p <= s[k..]) {
      NotBefore(a, p, b, o, c, k + o);
      assert s[k..][o] == s[k + o];
    }
    FindFirst(s, p, |a|);
  }

  lemma NotBefore(a: string, p: string, b: string, o: nat, c: char, i: nat)
    requires o < |p| && c !in a && c !in p[..o] && i < |a| + o
    ensures (a + (p + b))[i] != c
  {
    if i < |a| {
      assert (a + (p + b))[i] == a[i];
    } else {
      assert (a + (p + b))[i] == p[..o][i - |a|];
    }
  }

  /** At most `n` characters of `s` from `i` on. */
  function Sub(s: string, i: nat, n: nat): string
    requires i <= |s|
  {
    if i + n <= |s| then s[i..i + n] else s[i..]
  }

  datatype Info = Info(wordSize: nat, shape: seq<nat>, typeName: string)

  function TypeName(kind: char, wordSize: nat): string {
    (if kind == 'i' then "int" else if kind == 'u' then "uint" else if kind == 'f' then "float" else "")
    + ToString(wordSize * 8)
  }

  /** The text between the first parentheses of either kind; to the end if they stand in the wrong order. */
  function BetweenParentheses(header: string): Option<string> {
    var open, close := Find(header, "("), Find(header, ")");
    if open.None? || close.None? || open.value >= |header| then None
    else if open.value < close.value then Some(Sub(header, open.value + 1, close.value - open.value - 1))
    else Some(header[open.value + 1..])
  }

  predicate TooLarge(text: string) {
    exists i :: 0 <= i < |Numbers(text)| && Numbers(text)[i] > INT_MAX
  }

  /** The dimensions; a number too large for an `int` is an error. */
  method ParseShape(text: string) returns (shape: Option<seq<nat>>)
    ensures shape == if TooLarge(text) then None else Some(Numbers(text))
  {
    var strShape := text;
    var numbers: seq<nat> := [];
    while strShape != []
      invariant numbers + Numbers(strShape) == Numbers(text)
      invariant forall i :: 0 <= i < |numbers| ==> numbers[i] <= INT_MAX
      decreases |strShape|
    {
      if IsDigit(strShape[0]) {
        var k := Digits(strShape);
        var n := Number(strShape[..k]);
        assert Numbers(strShape) == [n] + Numbers(strShape[k..]);
        if n > INT_MAX {
          assert Numbers(text)[|numbers|] == n;
          assert TooLarge(text);
          return None;
        }
        assert numbers + ([n] + Numbers(strShape[k..])) == (numbers + [n]) + Numbers(strShape[k..]);
        numbers := numbers + [n];
        strShape := strShape[k..];
      } else {
        strShape := strShape[1..];
      }
    }
    assert numbers + [] == numbers;
    shape := Some(numbers);
  }

  /** What the leading digits say. */
  function Atoi(s: string): nat {
    Number(s[..Digits(s)])
  }

  function WordSize(s: string): nat {
    var quote := Find(s, "'");
    Atoi(if quote.Some? then s[..quote.value] else s)
  }

  /** What reading a header line yields, if it can be read: the line without its first character. */
  function ParseText(header: string): Option<Info> {
    var order := Find(header, "fortran_order");
    if order.None? || order.value + 16 > |header| || Sub(header, order.value + 16, 4) == "True" then None
    else
      var dims := BetweenParentheses(header);
      if dims.None? || TooLarge(dims.value) then None
      else
        var descr := Find(header, "descr");
        if descr.None? || descr.value + 11 > |header| then None
        else if header[descr.value + 9] != '<' && header[descr.value + 9] != '|' then None
        else
          var size := WordSize(header[descr.value + 11..]);
          Some(Info(size, Numbers(dims.value), TypeName(header[descr.value + 10], size)))
  }

  method ParseHeaderText(header: string) returns (r: Option<Info>)
    ensures r == ParseText(header)
  {
    hide Find, Sub, Numbers, TooLarge, WordSize, TypeName;
    var order := Find(header, "fortran_order");
    if order.None? || order.value + 16 > |header| || Sub(header, order.value + 16, 4) == "True" {
      return None;
    }
    var strShape := BetweenParentheses(header);
    if strShape.None? {
      return None;
    }
    var shape := ParseShape(strShape.value);
    if shape.None? {
      return None;
    }
    var descr := Find(header, "descr");
    if descr.None? || descr.value + 11 > |header| {
      return None;
    }
    if header[descr.value + 9] != '<' && header[descr.value + 9] != '|' {
      return None;
    }
    var wordSize := WordSize(header[descr.value + 11..]);
    r := Some(Info(wordSize, shape.value, TypeName(header[descr.value + 10], wordSize)));
  }

  // ----- what is written is read back

  /** The byte orders and kinds there are on a little-endian machine. */
  predicate Writable(t: ElementType) {
    (t.order == '<' || t.order == '|') && t.kind in "fiubc?"
  }

  predicate Plain(s: string) {
    forall i :: 0 <= i < |s| ==> IsDigit(s[i]) || s[i] == ',' || s[i] == ' '
  }

  lemma {:induction false} MorePlain(shape: seq<nat>)
    ensures Plain(MoreDimensions(shape))
    decreases |shape|
  {
    if shape != [] {
      MorePlain(shape[1..]);
    }
  }

  lemma ShapePlain(shape: seq<nat>)
    requires shape != []
    ensures Plain(ShapeText(shape))
  {
    MorePlain(shape[1..]);
  }

  function Tail(n: nat): string {
    ")" + (", }" + (Spaces(n) + "\n"))
  }

  lemma Nested(a: string, b: string, c: string, d: string, e: string, f: string, g: string)
    ensures (a + (b + (c + (d + (e + f))))) + g == a + (b + (c + (d + (e + (f + g)))))
  {
    Assoc(a, b + (c + (d + (e + f))), g);
    Assoc(b, c + (d + (e + f)), g);
    Assoc(c, d + (e + f), g);
    Assoc(d, e + f, g);
    Assoc(e, f, g);
  }

  /** The line without its first character, in the pieces a reader looks for. */
  lemma LinePieces(t: ElementType, shape: seq<nat>) returns (n: nat)
    requires shape != []
    ensures Line(t, shape)[1..] == TypeText(t) + (FORTRAN + (SHAPE_KEY + ("(" + (ShapeText(shape) + Tail(n)))))
  {
    n := Padding(|Dictionary(t, shape)|) - 1;
    var end := Spaces(n) + "\n";
    var inner := TypeText(t) + (FORTRAN + (SHAPE_KEY + ("(" + (ShapeText(shape) + AFTER_SHAPE))));
    Assoc(Dictionary(t, shape), Spaces(n), "\n");
    Assoc("{", inner, end);
    assert ("{" + (inner + end))[1..] == inner + end;
    Nested(TypeText(t), FORTRAN, SHAPE_KEY, "(", ShapeText(shape), AFTER_SHAPE, end);
    Assoc(")", ", }", end);
  }

  lemma TypeTextLacks(t: ElementType, c: char)
    requires Writable(t) && (c == '_' || c == '(' || c == ')')
    ensures c !in TypeText(t)
  {
    assert forall i :: 0 <= i < |ToString(t.size)| ==> ToString(t.size)[i] != c;
  }

  lemma FindOrder(t: ElementType, rest: string)
    requires Writable(t)
    ensures Find(TypeText(t) + (FORTRAN + rest), "fortran_order") == Some(|TypeText(t)|)
  {
    TypeTextLacks(t, '_');
    Assoc("fortran_order", "': ", rest);
    FindIn(TypeText(t), "fortran_order", "': " + rest, 7, '_');
  }

  lemma SubAfter(a: string, b: string, c: string, n: nat)
    requires n <= |b|
    ensures Sub(a + (b + c), |a|, n) == b[..n]
  {
  }

  lemma FindChar(a: string, x: string, dims: string, p: string, rest: string, c: char)
    requires p == [c] && c !in a && c !in x && c !in dims
    ensures Find(a + (x + (dims + (p + rest))), p) == Some(|a| + |x| + |dims|)
  {
    var b := a + (x + dims);
    FindIn(b, p, rest, 0, c);
    Assoc(a, x + dims, p + rest);
    Assoc(x, dims, p + rest);
  }

  lemma Middle(a: string, x: string, dims: string, rest: string)
    ensures Sub(a + (x + (dims + rest)), |a| + |x|, |dims|) == dims
  {
    Assoc(a, x, dims + rest);
    SubAfter(a + x, dims, rest, |dims|);
  }

  lemma Between(a: string, dims: string, rest: string)
    requires '(' !in a && ')' !in a && Plain(dims)
    ensures BetweenParentheses(a + ("(" + (dims + (")" + rest)))) == Some(dims)
  {
    FindIn(a, "(", dims + (")" + rest), 0, '(');
    assert ')' !in dims;
    FindChar(a, "(", dims, ")", rest, ')');
    Middle(a, "(", dims, ")" + rest);
  }

  lemma FindDescr(rest: string)
    ensures Find(BEFORE_TYPE + rest, "descr") == Some(1)
  {
    Assoc("'", "descr", "': '");
    Assoc("'", "descr" + "': '", rest);
    Assoc("descr", "': '", rest);
    FindIn("'", "descr", "': '" + rest, 0, 'd');
  }

  /** The word size is read from its digits. */
  lemma WordSizeRead(n: nat, rest: string)
    ensures WordSize(ToString(n) + ("'" + rest)) == n
  {
    var s := ToString(n);
    assert forall i :: 0 <= i < |s| ==> s[i] != '\'';
    FindIn(s, "'", rest, 0, '\'');
    assert (s + ("'" + rest))[..|s|] == s;
    DigitsThen(s, []);
    assert s + [] == s && s[..|s|] == s;
    NumberToString(n);
  }

  lemma TypeRead(t: ElementType, rest: string)
    requires Writable(t)
    ensures var h := TypeText(t) + rest;
            && Find(h, "descr") == Some(1) && |h| >= 12 && h[10] == t.order && h[11] == t.kind
            && WordSize(h[12..]) == t.size
  {
    var size, ok := ToString(t.size), [t.order, t.kind];
    assert AFTER_TYPE == "'" + ", '";
    Assoc(BEFORE_TYPE + ok + size, AFTER_TYPE, rest);
    Assoc(BEFORE_TYPE + ok, size, AFTER_TYPE + rest);
    Assoc(BEFORE_TYPE, ok, size + (AFTER_TYPE + rest));
    Assoc("'", ", '", rest);
    FindDescr(ok + (size + (AFTER_TYPE + rest)));
    assert (BEFORE_TYPE + (ok + (size + (AFTER_TYPE + rest))))[12..] == size + (AFTER_TYPE + rest);
    WordSizeRead(t.size, ", '" + rest);
  }

  lemma OrderRead(t: ElementType, rest: string)
    requires Writable(t)
    ensures var h := TypeText(t) + (FORTRAN + (SHAPE_KEY + rest));
            && Find(h, "fortran_order") == Some(|TypeText(t)|) && |TypeText(t)| + 16 <= |h|
            && Sub(h, |TypeText(t)| + 16, 4) != "True"
  {
    FindOrder(t, SHAPE_KEY + rest);
    Assoc(TypeText(t), FORTRAN, SHAPE_KEY + rest);
    SubAfter(TypeText(t) + FORTRAN, SHAPE_KEY, rest, 4);
    assert SHAPE_KEY[..4][0] == 'F';
  }

  lemma KeysLack(c: char)
    requires c == '(' || c == ')'
    ensures c !in FORTRAN && c !in SHAPE_KEY
  {
  }

  lemma DimensionsRead(t: ElementType, dims: string, end: string)
    requires Writable(t) && Plain(dims)
    ensures BetweenParentheses(TypeText(t) + (FORTRAN + (SHAPE_KEY + ("(" + (dims + (")" + end)))))) == Some(dims)
  {
    var rest := "(" + (dims + (")" + end));
    Assoc(TypeText(t), FORTRAN, SHAPE_KEY + rest);
    Assoc(TypeText(t) + FORTRAN, SHAPE_KEY, rest);
    KeysLack('(');
    KeysLack(')');
    TypeTextLacks(t, '(');
    TypeTextLacks(t, ')');
    Between(TypeText(t) + FORTRAN + SHAPE_KEY, dims, end);
  }

  /** Reading a written header line gives back the word size, the shape and the kind. */
  lemma HeaderRoundTrip(t: ElementType, shape: seq<nat>)
    requires Writable(t) && shape != [] && forall i :: 0 <= i < |shape| ==> shape[i] <= INT_MAX
    ensures ParseText(Line(t, shape)[1..]) == Some(Info(t.size, shape, TypeName(t.kind, t.size)))
  {
    var n := LinePieces(t, shape);
    var dims, end := ShapeText(shape), ", }" + (Spaces(n) + "\n");
    ShapePlain(shape);
    ShapeNumbers(shape);
    OrderRead(t, "(" + (dims + (")" + end)));
    DimensionsRead(t, dims, end);
    TypeRead(t, FORTRAN + (SHAPE_KEY + ("(" + (dims + (")" + end)))));
  }
}
