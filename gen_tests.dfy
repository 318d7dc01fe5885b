// The fixture checker generator (gen_tests.py): each line of a fixture's
// expected output is decoded into the check the generated C code makes on
// the value printed at that position, and each fixture gets a checker with
// a cursor that advances by one per printed value.
//
// Reading the fixture files, writing tests.c and compiling it are not
// modelled: the lines of a .out file are given, with their line breaks,
// and the generated C assertions are modelled by what they test.
module GenTests {
  import opened Wrappers
  import opened Arith
  import opened Value
  import StdStr
  import StdTypes

  // ---- str.split and str.rstrip ------------------------------------------------

  /** Python's str.split with a one-character separator: the pieces
      between separators, one more than there are separators. */
  function Split(s: string, sep: char): (r: seq<string>)
    ensures |r| >= 1
    ensures forall i :: 0 <= i < |r| ==> sep !in r[i]
    decreases |s|
  {
    if s == [] then [""]
    else
      var rest := Split(s[1..], sep);
      if s[0] == sep then [""] + rest
      else [[s[0]] + rest[0]] + rest[1..]
  }

  /** Python's sep.join: the pieces with one separator between each two. */
  function Join(parts: seq<string>, sep: char): string
    requires |parts| >= 1
    decreases |parts|
  {
    if |parts| == 1 then parts[0] else parts[0] + [sep] + Join(parts[1..], sep)
  }

  /** Joining the pieces of a split gives back the string. */
  lemma {:induction false} JoinSplit(s: string, sep: char)
    ensures Join(Split(s, sep), sep) == s
    decreases |s|
  {
    if s != [] {
      var rest := Split(s[1..], sep);
      JoinSplit(s[1..], sep);
      if s[0] == sep {
        assert ([""] + rest)[1..] == rest;
      } else if |rest| > 1 {
        var r := [[s[0]] + rest[0]] + rest[1..];
        assert r[1..] == rest[1..];
        assert Join(rest, sep) == rest[0] + [sep] + Join(rest[1..], sep);
      }
    }
  }

  /** Splitting joined pieces that hold no separator gives back the
      pieces. */
  lemma {:induction false} SplitJoin(parts: seq<string>, sep: char)
    requires |parts| >= 1 && forall i :: 0 <= i < |parts| ==> sep !in parts[i]
    ensures Split(Join(parts, sep), sep) == parts
    decreases |parts|
  {
    if |parts| == 1 {
      SplitPiece(parts[0], sep);
    } else {
      SplitJoin(parts[1..], sep);
      SplitBefore(parts[0], Join(parts[1..], sep), sep);
    }
  }

  /** A piece with no separator splits into itself. */
  lemma {:induction false} SplitPiece(w: string, sep: char)
    requires sep !in w
    ensures Split(w, sep) == [w]
    decreases |w|
  {
    if w != [] {
      SplitPiece(w[1..], sep);
      assert [w[0]] + w[1..] == w;
    }
  }

  /** A piece with no separator, then a separator, splits off first. */
  lemma {:induction false} SplitBefore(w: string, t: string, sep: char)
    requires sep !in w
    ensures Split(w + [sep] + t, sep) == [w] + Split(t, sep)
    decreases |w|
  {
    var s := w + [sep] + t;
    if w == [] {
      assert s[1..] == t;
    } else {
      assert s[1..] == w[1..] + [sep] + t;
      SplitBefore(w[1..], t, sep);
      assert [w[0]] + w[1..] == w;
    }
  }

  /** The characters str.isspace accepts: the ASCII controls from tab to
      carriage return, the four separators 0x1c-0x1f, space, and the
      Unicode spaces and line and paragraph separators. */
  predicate IsSpace(c: char)
  {
    var n := c as int;
    (9 <= n <= 13) || (0x1c <= n <= 0x20) || n == 0x85 || n == 0xa0 || n == 0x1680 ||
    (0x2000 <= n <= 0x200a) || n == 0x2028 || n == 0x2029 || n == 0x202f || n == 0x205f || n == 0x3000
  }

  /** Python's str.rstrip with no argument: s without its trailing white
      space. */
  function RStrip(s: string): (r: string)
    ensures |r| <= |s| && r == s[..|r|]
    ensures r == [] || !IsSpace(r[|r| - 1])
    ensures forall i :: |r| <= i < |s| ==> IsSpace(s[i])
  {
    if s == [] || !IsSpace(s[|s| - 1]) then s else RStrip(s[..|s| - 1])
  }

  /** Those three properties fix the result: it is the longest prefix
      that does not end in white space and leaves only white space. */
  lemma RStripUnique(s: string, r: string)
    requires |r| <= |s| && r == s[..|r|]
    requires r == [] || !IsSpace(r[|r| - 1])
    requires forall i :: |r| <= i < |s| ==> IsSpace(s[i])
    ensures r == RStrip(s)
  {
    var t := RStrip(s);
    assert |r| > 0 ==> !IsSpace(s[|r| - 1]);
    assert |t| > 0 ==> !IsSpace(s[|t| - 1]);
  }

  // ---- checks ------------------------------------------------------------------------

  /** What gen_check_value asserts about a printed value: an int with the
      given numeral, a double (compared as a C double literal), a bool, or
      a string of the given characters. */
  datatype Check = IntIs(text: string) | FloatIs(text: string) | BoolIs(b: bool) | StrIs(text: string)

  /** Why generation stops: gen_check_value's NotImplementedError, or a
      ValueError from unpacking a split into two names. */
  datatype Failure = NotImplemented(valType: string) | Unpack(got: nat)

  /** gen_check_value: the check for a type name and its contents. Only
      "int", "float", "bool" and "str" are types; a bool expects true
      exactly for the contents "true". */
  function CheckFor(valType: string, contents: string): (r: Result<Check, Failure>)
    ensures r.Err? <==> valType !in {"int", "float", "bool", "str"}
    ensures r.Err? ==> r.error == NotImplemented(valType)
    ensures valType == "int" ==> r == Ok(IntIs(contents))
    ensures valType == "bool" ==> r == Ok(BoolIs(contents == "true"))
    ensures valType == "str" ==> r == Ok(StrIs(contents))
  {
    if valType == "int" then Ok(IntIs(contents))
    else if valType == "float" then Ok(FloatIs(contents))
    else if valType == "bool" then Ok(BoolIs(contents == "true"))
    else if valType == "str" then Ok(StrIs(contents))
    else Err(NotImplemented(valType))
  }

  /** The expectation of one output line: a scalar, or the items of an
      array, each checked at its index. */
  datatype Case = Scalar(check: Check) | ArrayOf(items: seq<Check>)

  const ArrayPrefix: string := "array;"

  /** The items of an "array;" line, each split on ',' into a type and
      its contents, in order. */
  function DecodeItems(items: seq<string>): (r: Result<seq<Check>, Failure>)
    ensures r.Ok? ==> |r.value| == |items|
  {
    if items == [] then Ok([])
    else
      var parts := Split(items[0], ',');
      if |parts| != 2 then Err(Unpack(|parts|))
      else match CheckFor(parts[0], parts[1])
        case Err(e) => Err(e)
        case Ok(c) =>
          match DecodeItems(items[1..])
          case Err(e) => Err(e)
          case Ok(cs) => Ok([c] + cs)
  }

  /** The decoding of one stripped line: a line starting with "array;"
      gives the checks of the pieces after the first ';'; any other line
      must split on ';' into exactly a type and its contents. */
  function DecodeLine(value: string): Result<Case, Failure>
  {
    if ArrayPrefix <= value then
      match DecodeItems(Split(value, ';')[1..])
      case Err(e) => Err(e)
      case Ok(cs) => Ok(ArrayOf(cs))
    else
      var parts := Split(value, ';');
      if |parts| != 2 then Err(Unpack(|parts|))
      else match CheckFor(parts[0], parts[1])
        case Err(e) => Err(e)
        case Ok(c) => Ok(Scalar(c))
  }

  /** The loop over one fixture's .out lines: each line is stripped of
      trailing white space and decoded, in file order, so the case at each
      index is the expectation of the line at that index; the first line
      that fails stops the generation. */
  method DecodeFixture(lines: seq<string>) returns (r: Result<seq<Case>, Failure>)
    ensures r.Ok? <==> forall i :: 0 <= i < |lines| ==> DecodeLine(RStrip(lines[i])).Ok?
    ensures r.Ok? ==> (|r.value| == |lines| &&
      forall i :: 0 <= i < |lines| ==> r.value[i] == DecodeLine(RStrip(lines[i])).value)
    ensures r.Err? ==> exists i :: 0 <= i < |lines| && DecodeLine(RStrip(lines[i])) == Err(r.error)
  {
    var cases: seq<Case> := [];
    var i := 0;
    while i < |lines|
      invariant 0 <= i <= |lines| && |cases| == i
      invariant forall j :: 0 <= j < i ==> DecodeLine(RStrip(lines[j])).Ok? && cases[j] == DecodeLine(RStrip(lines[j])).value
    {
      var value := RStrip(lines[i]);
      var decoded := DecodeLine(value);
      if decoded.Err? {
        return Err(decoded.error);
      }
      cases := cases + [decoded.value];
      i := i + 1;
    }
    return Ok(cases);
  }

  // ---- lines from checks ------------------------------------------------------------

  function TypeName(c: Check): string
  {
    match c
    case IntIs(_) => "int"
    case FloatIs(_) => "float"
    case BoolIs(_) => "bool"
    case StrIs(_) => "str"
  }

  function Contents(c: Check): string
  {
    match c
    case IntIs(t) => t
    case FloatIs(t) => t
    case BoolIs(b) => if b then "true" else "false"
    case StrIs(t) => t
  }

  /** A check's contents that need no quoting in an output line. */
  predicate Plain(c: Check)
  {
    ';' !in Contents(c) && ',' !in Contents(c)
  }

  function ScalarLine(c: Check): string
  {
    TypeName(c) + ";" + Contents(c)
  }

  function ItemText(c: Check): string
  {
    TypeName(c) + "," + Contents(c)
  }

  function ItemTexts(items: seq<Check>): (r: seq<string>)
    ensures |r| == |items|
  {
    if items == [] then [] else [ItemText(items[0])] + ItemTexts(items[1..])
  }

  function ArrayLine(items: seq<Check>): string
    requires |items| >= 1
  {
    ArrayPrefix + Join(ItemTexts(items), ';')
  }

  /** A scalar line decodes to its check. */
  lemma DecodeScalarLine(c: Check)
    requires ';' !in Contents(c)
    ensures DecodeLine(ScalarLine(c)) == Ok(Scalar(c))
  {
    var line := ScalarLine(c);
    assert !(ArrayPrefix <= line) by {
      assert line[0] != 'a';
    }
    SplitsInTwo(c, ';');
    CheckForNames(c);
  }

  /** An array line decodes to its items, each at its index. */
  lemma DecodeArrayLine(items: seq<Check>)
    requires |items| >= 1 && forall i :: 0 <= i < |items| ==> Plain(items[i])
    ensures DecodeLine(ArrayLine(items)) == Ok(ArrayOf(items))
  {
    assert ArrayPrefix <= ArrayLine(items);
    ArrayLineSplits(items);
    DecodeTexts(items);
  }

  /** The pieces of an array line after "array" are the item texts. */
  lemma ArrayLineSplits(items: seq<Check>)
    requires |items| >= 1 && forall i :: 0 <= i < |items| ==> Plain(items[i])
    ensures Split(ArrayLine(items), ';')[1..] == ItemTexts(items)
  {
    var texts := ItemTexts(items);
    assert |texts| >= 1;
    var joined := Join(texts, ';');
    ItemTextsPlain(items);
    SplitJoin(texts, ';');
    PrefixSplits(joined);
  }

  /** What follows "array;" splits on its own. */
  lemma PrefixSplits(t: string)
    ensures Split(ArrayPrefix + t, ';')[1..] == Split(t, ';')
  {
    assert ArrayPrefix + t == "array" + [';'] + t;
    SplitBefore("array", t, ';');
  }

  lemma {:induction false} ItemTextsPlain(items: seq<Check>)
    requires forall i :: 0 <= i < |items| ==> Plain(items[i])
    ensures forall i :: 0 <= i < |items| ==> ';' !in ItemTexts(items)[i]
    decreases |items|
  {
    if items != [] {
      assert ';' !in TypeName(items[0]);
      assert ';' !in ItemText(items[0]);
      ItemTextsPlain(items[1..]);
    }
  }

  lemma {:induction false} DecodeTexts(items: seq<Check>)
    requires forall i :: 0 <= i < |items| ==> Plain(items[i])
    ensures DecodeItems(ItemTexts(items)) == Ok(items)
    decreases |items|
  {
    if items != [] {
      var c := items[0];
      SplitsInTwo(c, ',');
      CheckForNames(c);
      assert ItemTexts(items)[1..] == ItemTexts(items[1..]);
      DecodeTexts(items[1..]);
      assert [c] + items[1..] == items;
    }
  }

  /** A check's type name and contents, with a separator neither holds
      between them, split back apart. */
  lemma SplitsInTwo(c: Check, sep: char)
    requires sep == ',' || sep == ';'
    requires sep !in Contents(c)
    ensures Split(TypeName(c) + [sep] + Contents(c), sep) == [TypeName(c), Contents(c)]
  {
    assert sep !in TypeName(c);
    assert TypeName(c) + [sep] + Contents(c) == Join([TypeName(c), Contents(c)], sep);
    SplitJoin([TypeName(c), Contents(c)], sep);
  }

  /** gen_check_value gives back a check from its type name and
      contents. */
  lemma CheckForNames(c: Check)
    ensures CheckFor(TypeName(c), Contents(c)) == Ok(c)
  {
    match c
    case BoolIs(b) =>
      assert ("false" == "true") == false;
    case _ =>
  }

  /** An "array;" line with nothing after it cannot be decoded: its one
      empty item does not split into a type and contents, so an empty
      array cannot be expected. */
  lemma EmptyArrayLineFails()
    ensures DecodeLine(ArrayPrefix) == Err(Unpack(1))
  {
    assert ArrayPrefix == Join(["array", ""], ';');
    SplitJoin(["array", ""], ';');
    SplitPiece("", ',');
  }

  // ---- the generated checker ----------------------------------------------------------

  /** The characters a byte string reads as, one per byte. */
  function Chars(b: seq<byte>): (r: string)
    ensures |r| == |b| && forall i :: 0 <= i < |b| ==> r[i] as int == b[i] as int
  {
    seq(|b|, i requires 0 <= i < |b| => (b[i] as int) as char)
  }

  /** What a check's C assertion tests of a value. An int numeral is
      compared with the numeral of the value; the double comparison is
      floating point and only the type is modelled; a string must have
      the contents' length and, byte for character, the same contents. */
  predicate Holds(c: Check, v: Value)
  {
    match c
    case IntIs(text) => v.Int? && Chars(StdStr.IntoInt(v.n)) == text
    case FloatIs(_) => v.Double?
    case BoolIs(b) => v.Bool? && v.b == b
    case StrIs(text) => v.Str? && |v.s| == |text| && forall i :: 0 <= i < |text| ==> v.s[i] as int == text[i] as int
  }

  /** The assertions of one case. An array case needs a struct value
      that is an array (the contents of the arrays the heap holds are
      given by address) and each item's check on the element at its
      index. */
  predicate Satisfies(c: Case, v: Value, arrays: map<Ptr, seq<Value>>)
  {
    match c
    case Scalar(chk) => Holds(chk, v)
    case ArrayOf(items) =>
      v.Struct? && v.obj in arrays &&
      forall i :: 0 <= i < |items| ==> i < |arrays[v.obj]| && Holds(items[i], arrays[v.obj][i])
  }

  /** An int check written from n's numeral accepts exactly the int n. */
  lemma IntCheckExact(n: Int32, v: Value)
    ensures Holds(IntIs(Chars(StdStr.IntoInt(n))), v) <==> v == Int(n)
  {
    if v.Int? && Chars(StdStr.IntoInt(v.n)) == Chars(StdStr.IntoInt(n)) {
      var a, b := StdStr.IntoInt(v.n), StdStr.IntoInt(n);
      assert forall i :: 0 <= i < |a| ==> a[i] as int == b[i] as int;
      assert a == b;
      StdTypes.IntoIntInjective(v.n, n);
    }
  }

  /** The assertions the generated switch runs as written: those of the
      case at the cursor and, because an array case ends without a break,
      those of every following case up to and including the next scalar
      one. */
  function FallThrough(cases: seq<Case>, i: nat, v: Value, arrays: map<Ptr, seq<Value>>): bool
    decreases |cases| - i
  {
    if i >= |cases| then true
    else Satisfies(cases[i], v, arrays) && (cases[i].ArrayOf? ==> FallThrough(cases, i + 1, v, arrays))
  }

  /** test_N_idx and test_N_check of one fixture: the cursor starts at 0
      and the checker runs the assertions of the case at the cursor. A
      failing assertion aborts the test program; the result false stands
      for that abort, which leaves the cursor where it was. */
  class Checker {
    var idx: nat
    const cases: seq<Case>

    constructor (cases: seq<Case>)
      ensures idx == 0 && this.cases == cases
    {
      idx := 0;
      this.cases := cases;
    }

    /** test_N_check as generated: the switch falls through from an
        array case into the cases after it. */
    method CheckAsWritten(v: Value, arrays: map<Ptr, seq<Value>>) returns (ok: bool)
      modifies this
      ensures ok == FallThrough(cases, old(idx), v, arrays)
      ensures idx == if ok then old(idx) + 1 else old(idx)
    {
      var i := idx;
      while i < |cases|
        invariant idx <= i
        invariant FallThrough(cases, idx, v, arrays) == FallThrough(cases, i, v, arrays)
        decreases |cases| - i
      {
        if !Satisfies(cases[i], v, arrays) {
          return false;
        }
        if cases[i].Scalar? {
          break;
        }
        i := i + 1;
      }
      idx := idx + 1;
      return true;
    }

    /** test_N_check with a break after each array case: only the case at
        the cursor is checked, and a value past the last case is not
        checked at all. */
    method Check(v: Value, arrays: map<Ptr, seq<Value>>) returns (ok: bool)
      modifies this
      ensures ok == (old(idx) < |cases| ==> Satisfies(cases[old(idx)], v, arrays))
      ensures idx == if ok then old(idx) + 1 else old(idx)
    {
      if idx < |cases| && !Satisfies(cases[idx], v, arrays) {
        return false;
      }
      idx := idx + 1;
      return true;
    }
  }

  /** At a scalar case, or past the last case, the switch as written
      checks what the corrected one does. */
  lemma FallThroughAtScalar(cases: seq<Case>, i: nat, v: Value, arrays: map<Ptr, seq<Value>>)
    requires i >= |cases| || cases[i].Scalar?
    ensures FallThrough(cases, i, v, arrays) == (i < |cases| ==> Satisfies(cases[i], v, arrays))
  {
  }

  /** After an array case the switch as written also runs the next
      case's assertions on the same value: a fixture that prints the
      array [1] and then 2 aborts on the array, which meets its own
      expectation. */
  lemma ArrayCaseFallsThrough(p: Ptr)
    ensures var cases := [ArrayOf([IntIs("1")]), Scalar(IntIs("2"))];
      var arrays := map[p := [Int(1)]];
      Satisfies(cases[0], Struct(p), arrays) && !FallThrough(cases, 0, Struct(p), arrays)
  {
    var one := StdStr.IntoInt(1);
    assert one == [StdStr.DigitByte(1)];
    assert Chars(one) == "1";
  }
}
