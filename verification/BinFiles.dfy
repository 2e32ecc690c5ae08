/**
 BinFile: a text header of name=value lines - object positions in decimal among them - and one blob.
 Parsing what was written gives the same attributes, objects and bytes, exactly under the conditions
 of ReadsBack.

 The checks inside the parser's loop do not end it: the break they are given leaves the loop that MKI_CHECK
 itself expands to (src/include/mki/utils/assert/assert.h:19-25), and the loop goes on with the line at hand.
 */
module BinFiles {
  import opened Decimals
  import opened Options

  const ATTR_VERSION := "$Version"
  const ATTR_END := "$End"
  const ATTR_OBJECT_LENGTH := "$Object.Length"
  const ATTR_OBJECT_COUNT := "$Object.Count"
  const ATTR_OBJECT_PREFIX := "$Object."
  const VERSION := "1.0"

  const MAX_FILE_SIZE := 10737418240
  const MAX_SINGLE_MEMCPY_SIZE := 1073741824
  /** std::vector<char>::max_size. */
  const MAX_VECTOR_SIZE := 0x7FFF_FFFF_FFFF_FFFF
  const MAX_NAME_LENGTH := 256
  const MAX_SPLIT := 10000

  datatype Attr = Attr(name: string, value: string)

  datatype Binary = Binary(name: string, offset: nat, length: nat)

  /** The contents of a BinFile. The names in taken are refused for further objects. */
  datatype File = File(attrs: seq<Attr>, binaries: seq<Binary>, buffer: string, taken: set<string>)

  const EMPTY := File([], [], "", {})

  const INVALID_CHARS := {'\n', '\U{000C}', '\r', '\U{000B}', '\t', '\U{0008}', '\U{007F}', ' ', '$'}

  /** CheckNameValid with its default length limit. */
  predicate CheckNameValid(name: string)
  {
    name != "" && |name| <= MAX_NAME_LENGTH && forall i :: 0 <= i < |name| ==> name[i] !in INVALID_CHARS
  }

  lemma NameRules(name: string)
    ensures CheckNameValid(name)
            <==> && 0 < |name| <= 256
                 && forall c :: c in name ==>
                      c !in {'\n', '\U{000C}', '\r', '\U{000B}', '\t', '\U{0008}', '\U{007F}', ' ', '$'}
  {
    assert forall i :: 0 <= i < |name| ==> name[i] in name;
  }

  function Names(attrs: seq<Attr>): set<string>
  {
    set i | 0 <= i < |attrs| :: attrs[i].name
  }

  function BinaryNames(binaries: seq<Binary>): set<string>
  {
    set i | 0 <= i < |binaries| :: binaries[i].name
  }

  // --------------------------------------------------------------- splitting

  /** The first position of c, or the length. */
  function Index(text: string, c: char): (k: nat)
    ensures k <= |text| && (k < |text| ==> text[k] == c) && forall i :: 0 <= i < k ==> text[i] != c
  {
    if text == [] || text[0] == c then 0 else 1 + Index(text[1..], c)
  }

  /** The pieces that repeated getline calls deliver: no piece follows a delimiter at the very end. */
  function Fields(text: string, c: char): seq<string>
    decreases |text|
  {
    if text == [] then []
    else
      var k := Index(text, c);
      if k == |text| then [text] else [text[..k]] + Fields(text[k + 1..], c)
  }

  lemma IndexOf(a: string, c: char, b: string)
    requires c !in a
    ensures Index(a + [c] + b, c) == |a|
  {
    var text := a + [c] + b;
    assert text[|a|] == c;
    forall i | 0 <= i < |a|
      ensures text[i] != c
    {
      assert text[i] == a[i];
    }
  }

  lemma TwoFields(a: string, c: char, b: string)
    requires c !in a && c !in b && b != []
    ensures Fields(a + [c] + b, c) == [a, b]
  {
    IndexOf(a, c, b);
    var text := a + [c] + b;
    assert text[..|a|] == a && text[|a| + 1..] == b;
    assert Index(b, c) == |b|;
  }

  /** No field contains the delimiter, and fields only have characters of the text. */
  lemma {:induction false} FieldsClean(text: string, c: char, i: nat)
    requires i < |Fields(text, c)|
    ensures c !in Fields(text, c)[i] && forall x :: x in Fields(text, c)[i] ==> x in text
    decreases |text|
  {
    var k := Index(text, c);
    if k < |text| && i > 0 {
      FieldsClean(text[k + 1..], c, i - 1);
    }
  }

  lemma NoFields(rest: string, c: char)
    requires rest == []
    ensures Fields(rest, c) == []
  {
  }

  lemma SomeFields(rest: string, c: char)
    requires rest != []
    ensures Fields(rest, c) != []
  {
  }

  lemma FieldsStep(rest: string, c: char)
    requires rest != []
    ensures var k := Index(rest, c);
            Fields(rest, c) == [rest[..k]] + Fields(if k == |rest| then [] else rest[k + 1..], c)
  {
    var k := Index(rest, c);
    if k == |rest| {
      NoFields([], c);
      assert rest[..k] == rest;
      assert Fields(rest, c) == [rest];
    } else {
      assert Fields(rest, c) == [rest[..k]] + Fields(rest[k + 1..], c);
    }
  }

  /** StrSplit: the fields, but at most MAX_SPLIT + 1 of them. */
  method StrSplit(text: string, delimiter: char) returns (result: seq<string>)
    ensures result <= Fields(text, delimiter)
    ensures |result| == if |Fields(text, delimiter)| <= MAX_SPLIT + 1 then |Fields(text, delimiter)| else MAX_SPLIT + 1
  {
    hide Fields;
    result := [];
    var rest, lineNum := text, 0;
    while rest != []
      invariant Fields(text, delimiter) == result + Fields(rest, delimiter)
      invariant lineNum == |result| <= MAX_SPLIT + 1
      decreases |rest|
    {
      if lineNum > MAX_SPLIT {
        break;
      }
      lineNum := lineNum + 1;
      FieldsStep(rest, delimiter);
      var k := Index(rest, delimiter);
      result := result + [rest[..k]];
      rest := if k == |rest| then [] else rest[k + 1..];
    }
    if rest == [] {
      NoFields(rest, delimiter);
      assert result + Fields(rest, delimiter) == result;
    } else {
      SomeFields(rest, delimiter);
      assert |result| == MAX_SPLIT + 1;
    }
  }

  // ----------------------------------------------------------------- writing

  function Line(name: string, value: string): string
  {
    name + "=" + value + "\n"
  }

  function AttrLines(attrs: seq<Attr>): string
  {
    if attrs == [] then "" else Line(attrs[0].name, attrs[0].value) + AttrLines(attrs[1..])
  }

  function Position(b: Binary): string
  {
    ToString(b.offset) + "," + ToString(b.length)
  }

  function BinaryLines(binaries: seq<Binary>): string
  {
    if binaries == [] then ""
    else Line(ATTR_OBJECT_PREFIX + binaries[0].name, Position(binaries[0])) + BinaryLines(binaries[1..])
  }

  /** The bytes that WriteImpl writes. */
  function Written(f: File): string
  {
    Line(ATTR_VERSION, VERSION)
    + (Line(ATTR_OBJECT_COUNT, ToString(|f.binaries|))
       + (Line(ATTR_OBJECT_LENGTH, ToString(|f.buffer|))
          + (AttrLines(f.attrs) + (BinaryLines(f.binaries) + (Line(ATTR_END, "1") + f.buffer)))))
  }

  // ------------------------------------------------- what a written file says

  /** A decimal number, and nothing else. */
  predicate Number(text: string, n: nat)
  {
    text != "" && (forall i :: 0 <= i < |text| ==> '0' <= text[i] <= '9') && Strtoull(text) == n
  }

  /** The line starts somewhere behind the first line. */
  ghost predicate HasLine(bytes: string, line: string)
  {
    exists at: nat :: LineAt(bytes, line, at)
  }

  predicate LineAt(bytes: string, line: string, at: nat)
  {
    0 < at && at + |line| <= |bytes| && bytes[at - 1] == '\n' && bytes[at..at + |line|] == line
  }

  /** The version, the number of objects, and the number of bytes they have. */
  ghost predicate SaysInFront(bytes: string, objects: nat, size: nat)
  {
    exists c: string, l: string ::
      Number(c, objects) && Number(l, size)
      && "$Version=1.0\n$Object.Count=" + c + "\n$Object.Length=" + l + "\n" <= bytes
  }

  /** An object's line: its offset and its length. */
  ghost predicate SaysObject(bytes: string, name: string, offset: nat, length: nat)
  {
    exists o: string, l: string ::
      Number(o, offset) && Number(l, length) && HasLine(bytes, "$Object." + name + "=" + o + "," + l + "\n")
  }

  ghost predicate SaysBinary(bytes: string, b: Binary)
  {
    b.offset <= ULLONG_MAX && b.length <= ULLONG_MAX ==> SaysObject(bytes, b.name, b.offset, b.length)
  }

  lemma PrintedNumber(n: nat)
    requires n <= ULLONG_MAX
    ensures Number(ToString(n), n)
  {
    StrtoullOfPrinted(n);
  }

  /** A line in the middle of a part of the file. */
  lemma LineInside(front: string, before: string, line: string, after: string, rest: string)
    requires front != "" && front[|front| - 1] == '\n' && (before != "" ==> before[|before| - 1] == '\n')
    ensures HasLine(front + (before + line + after) + rest, line)
  {
    var bytes := front + (before + line + after) + rest;
    var at := |front| + |before|;
    assert bytes == (front + before) + line + (after + rest);
    assert bytes[at..at + |line|] == line;
    assert bytes[at - 1] == (front + before)[at - 1];
    assert LineAt(bytes, line, at);
  }

  lemma {:induction false} AttrLinesSplit(attrs: seq<Attr>, k: nat) returns (before: string, after: string)
    requires k < |attrs|
    ensures AttrLines(attrs) == before + (attrs[k].name + "=" + attrs[k].value + "\n") + after
    ensures before != "" ==> before[|before| - 1] == '\n'
  {
    var first := Line(attrs[0].name, attrs[0].value);
    if k == 0 {
      before, after := "", AttrLines(attrs[1..]);
      assert AttrLines(attrs) == "" + first + after;
    } else {
      before, after := AttrLinesSplit(attrs[1..], k - 1);
      assert AttrLines(attrs)
          == (first + before) + (attrs[k].name + "=" + attrs[k].value + "\n") + after;
      before := first + before;
    }
  }

  function ObjectText(b: Binary): string
  {
    "$Object." + b.name + "=" + Position(b) + "\n"
  }

  lemma {:induction false} BinaryLinesSplit(binaries: seq<Binary>, k: nat) returns (before: string, after: string)
    requires k < |binaries|
    ensures BinaryLines(binaries) == before + ObjectText(binaries[k]) + after
    ensures before != "" ==> before[|before| - 1] == '\n'
  {
    hide Position, ObjectText, BinaryLines;
    var first, tail := ObjectText(binaries[0]), BinaryLines(binaries[1..]);
    assert BinaryLines(binaries) == first + tail && first != "" && first[|first| - 1] == '\n' by {
      FirstObject(binaries);
    }
    if k == 0 {
      before, after := "", tail;
    } else {
      before, after := BinaryLinesSplit(binaries[1..], k - 1);
      assert first + tail == (first + before) + ObjectText(binaries[k]) + after;
      before := first + before;
    }
  }

  lemma FirstObject(binaries: seq<Binary>)
    requires binaries != []
    ensures BinaryLines(binaries) == ObjectText(binaries[0]) + BinaryLines(binaries[1..])
    ensures ObjectText(binaries[0]) != "" && ObjectText(binaries[0])[|ObjectText(binaries[0])| - 1] == '\n'
  {
    hide Position;
  }

  /** The three lines in front. */
  function Front(f: File): (r: string)
    ensures r != "" && r[|r| - 1] == '\n'
  {
    "$Version=1.0\n$Object.Count=" + ToString(|f.binaries|) + "\n$Object.Length=" + ToString(|f.buffer|) + "\n"
  }

  /** The end line and the blob. */
  function Back(f: File): string
  {
    "$End=1\n" + f.buffer
  }

  lemma WrittenParts(f: File)
    ensures Written(f) == Front(f) + AttrLines(f.attrs) + BinaryLines(f.binaries) + Back(f)
  {
    hide ToString, AttrLines, BinaryLines, Line;
    var c, l, a, o := ToString(|f.binaries|), ToString(|f.buffer|), AttrLines(f.attrs), BinaryLines(f.binaries);
    LiteralLines(c, l);
    JoinFront("$Version=1.0\n", "$Object.Count=", c, "\n", "$Object.Length=", l, a, o, Back(f));
    assert "$Version=1.0\n" + "$Object.Count=" == "$Version=1.0\n$Object.Count=";
    assert "\n" + "$Object.Length=" == "\n$Object.Length=";
  }

  lemma LiteralLines(c: string, l: string)
    ensures Line(ATTR_VERSION, VERSION) == "$Version=1.0\n" && Line(ATTR_END, "1") == "$End=1\n"
    ensures Line(ATTR_OBJECT_COUNT, c) == "$Object.Count=" + c + "\n"
    ensures Line(ATTR_OBJECT_LENGTH, l) == "$Object.Length=" + l + "\n"
  {
  }

  lemma JoinFront(v: string, count: string, c: string, nl: string, length: string, l: string, a: string, o: string,
                  e: string)
    ensures v + (count + c + nl + (length + l + nl + (a + (o + e))))
         == (v + count) + c + (nl + length) + l + nl + a + o + e
  {
  }

  lemma FrontSays(f: File)
    requires |f.buffer| <= ULLONG_MAX && |f.binaries| <= ULLONG_MAX
    ensures SaysInFront(Written(f), |f.binaries|, |f.buffer|)
  {
    hide ToString, Number, Written, AttrLines, BinaryLines, Back;
    var c, l := ToString(|f.binaries|), ToString(|f.buffer|);
    PrintedNumber(|f.binaries|);
    PrintedNumber(|f.buffer|);
    WrittenParts(f);
    assert Front(f) == "$Version=1.0\n$Object.Count=" + c + "\n$Object.Length=" + l + "\n" <= Written(f);
  }

  lemma AttrSays(f: File, k: nat)
    requires k < |f.attrs|
    ensures HasLine(Written(f), f.attrs[k].name + "=" + f.attrs[k].value + "\n")
  {
    hide HasLine, Written, AttrLines, BinaryLines, Front, Back;
    WrittenParts(f);
    var line := f.attrs[k].name + "=" + f.attrs[k].value + "\n";
    var before, after := AttrLinesSplit(f.attrs, k);
    LineInside(Front(f), before, line, after, BinaryLines(f.binaries) + Back(f));
    assert Written(f) == Front(f) + (before + line + after) + (BinaryLines(f.binaries) + Back(f));
  }

  lemma ObjectSays(f: File, k: nat)
    requires k < |f.binaries| && f.binaries[k].offset <= ULLONG_MAX && f.binaries[k].length <= ULLONG_MAX
    ensures SaysObject(Written(f), f.binaries[k].name, f.binaries[k].offset, f.binaries[k].length)
  {
    hide HasLine, Written, AttrLines, BinaryLines, Front, Back, ToString, Number;
    WrittenParts(f);
    LinesEnd(f.attrs);
    var b := f.binaries[k];
    var before, after := BinaryLinesSplit(f.binaries, k);
    var front := Front(f) + AttrLines(f.attrs);
    LineInside(front, before, ObjectText(b), after, Back(f));
    assert Written(f) == front + (before + ObjectText(b) + after) + Back(f);
    PrintedNumber(b.offset);
    PrintedNumber(b.length);
    var o, l := ToString(b.offset), ToString(b.length);
    assert ObjectText(b) == "$Object." + b.name + "=" + o + "," + l + "\n";
  }

  lemma BackSays(f: File)
    ensures HasLine(Written(f), "$End=1\n" + f.buffer)
    ensures |Written(f)| >= 7 + |f.buffer| && Written(f)[|Written(f)| - 7 - |f.buffer|..] == "$End=1\n" + f.buffer
  {
    hide HasLine, Written, AttrLines, BinaryLines, Front;
    WrittenParts(f);
    LinesEnd(f.attrs);
    ObjectLinesEnd(f.binaries);
    var front := Front(f) + AttrLines(f.attrs) + BinaryLines(f.binaries);
    LineInside(front, "", "$End=1\n" + f.buffer, "", "");
    assert Written(f) == front + ("" + ("$End=1\n" + f.buffer) + "") + "";
  }

  lemma {:induction false} LinesEnd(attrs: seq<Attr>)
    ensures attrs != [] ==> AttrLines(attrs) != "" && AttrLines(attrs)[|AttrLines(attrs)| - 1] == '\n'
    ensures attrs == [] ==> AttrLines(attrs) == ""
  {
    if attrs != [] {
      LinesEnd(attrs[1..]);
    }
  }

  lemma {:induction false} ObjectLinesEnd(binaries: seq<Binary>)
    ensures binaries != [] ==> BinaryLines(binaries) != "" && BinaryLines(binaries)[|BinaryLines(binaries)| - 1] == '\n'
    ensures binaries == [] ==> BinaryLines(binaries) == ""
  {
    hide Position;
    if binaries != [] {
      ObjectLinesEnd(binaries[1..]);
    }
  }

  lemma WrittenSays(f: File)
    ensures |f.binaries| <= ULLONG_MAX && |f.buffer| <= ULLONG_MAX ==>
              SaysInFront(Written(f), |f.binaries|, |f.buffer|)
    ensures forall k :: 0 <= k < |f.attrs| ==> HasLine(Written(f), f.attrs[k].name + "=" + f.attrs[k].value + "\n")
    ensures forall k :: 0 <= k < |f.binaries| ==> SaysBinary(Written(f), f.binaries[k])
    ensures HasLine(Written(f), "$End=1\n" + f.buffer)
    ensures |f.buffer| <= |Written(f)| && f.buffer == Written(f)[|Written(f)| - |f.buffer|..]
  {
    hide HasLine, Written, SaysObject, SaysInFront;
    if |f.binaries| <= ULLONG_MAX && |f.buffer| <= ULLONG_MAX {
      FrontSays(f);
    }
    forall k | 0 <= k < |f.attrs|
      ensures HasLine(Written(f), f.attrs[k].name + "=" + f.attrs[k].value + "\n")
    {
      AttrSays(f, k);
    }
    forall k | 0 <= k < |f.binaries|
      ensures SaysBinary(Written(f), f.binaries[k])
    {
      if f.binaries[k].offset <= ULLONG_MAX && f.binaries[k].length <= ULLONG_MAX {
        ObjectSays(f, k);
      }
    }
    BackSays(f);
    var w := Written(f);
    assert w[|w| - |f.buffer|..] == w[|w| - 7 - |f.buffer|..][7..];
  }

  // ----------------------------------------------------------------- parsing

  /** What one line of the header does. Stuck: a field that is not there is read, or an exception is thrown. */
  datatype LineResult = Next(f: File) | End | Stuck

  function ZeroBuffer(n: nat): (r: string)
    ensures |r| == n
  {
    seq(n, _ => '\0')
  }

  /** vector::resize. */
  function Resized(b: string, n: nat): (r: string)
    ensures |r| == n
  {
    if n <= |b| then b[..n] else b + ZeroBuffer(n - |b|)
  }

  /** Whether ParseSystemAttr succeeds; its caller does not mind. */
  predicate SystemAttrOk(name: string, value: string, f: File)
  {
    ATTR_OBJECT_PREFIX <= name ==>
      var fields := Fields(value, ',');
      && |fields| == 2 && name[|ATTR_OBJECT_PREFIX|..] !in f.taken
      && Strtoull(fields[0]) + Strtoull(fields[1]) <= |f.buffer|
  }

  /** What ParseSystemAttr leaves: the name of an object with a bad position stays taken. */
  function AfterSystemAttr(name: string, value: string, f: File): File
  {
    if !(ATTR_OBJECT_PREFIX <= name) then f
    else
      var objName, fields := name[|ATTR_OBJECT_PREFIX|..], Fields(value, ',');
      if |fields| != 2 || objName in f.taken then f
      else
        var g, offset, length := f.(taken := f.taken + {objName}), Strtoull(fields[0]), Strtoull(fields[1]);
        if offset + length > |f.buffer| then g
        else g.(binaries := g.binaries + [Binary(objName, offset, length)])
  }

  function ParseLine(line: string, f: File): LineResult
  {
    var fields := Fields(line, '=');
    if |fields| < 2 then Stuck
    else
      var name, value := fields[0], fields[1];
      if name == ATTR_END then End
      else if name == ATTR_OBJECT_COUNT then Next(f)
      else if name == ATTR_OBJECT_LENGTH then
        if Strtoull(value) > MAX_VECTOR_SIZE then Stuck else Next(f.(buffer := Resized(f.buffer, Strtoull(value))))
      else if name == "" then Stuck
      else if name[0] == '$' then Next(AfterSystemAttr(name, value, f))
      else Next(f.(attrs := f.attrs + [Attr(name, value)]))
  }

  /** The outcome of the header loop: an end line with what follows it, none with a position behind it, or Lost. */
  datatype HeadResult = Found(f: File, blob: string) | NotFound(f: File) | Lost

  /** The header loop. Behind an end line without a newline, tellg has no position to give. */
  function ParseHead(rest: string, f: File): HeadResult
    decreases |rest|
  {
    if rest == [] then NotFound(f)
    else
      var k := Index(rest, '\n');
      var after := if k == |rest| then [] else rest[k + 1..];
      match ParseLine(rest[..k], f)
      case Stuck => Lost
      case End => if k == |rest| then NotFound(f) else Found(f, after)
      case Next(g) => ParseHead(after, g)
  }

  /** The status of a read with the file it leaves. Undefined: an exception, or no defined behaviour. */
  datatype ReadResult = Success(f: File) | Failure(f: File) | Undefined

  /** ParseBinFile: the header, then as many bytes as the buffer now holds. */
  function ParseAll(bytes: string, into: File): ReadResult
  {
    match ParseHead(bytes, into)
    case Lost => Undefined
    case NotFound(f) => Failure(f)
    case Found(f, blob) =>
      if |f.buffer| > |blob| then Failure(f) else Success(f.(buffer := blob[..|f.buffer|]))
  }

  /** Read, on the bytes of a file. */
  function Parse(bytes: string, into: File): ReadResult
  {
    if |bytes| > MAX_FILE_SIZE then Failure(into) else ParseAll(bytes, into)
  }

  // ------------------------------------------------------ what is read back

  /** Names and values that survive as fields of a line. */
  predicate Clean(text: string)
  {
    '=' !in text && '\n' !in text
  }

  predicate WritableAttr(a: Attr)
  {
    a.name != "" && a.name[0] != '$' && Clean(a.name) && a.value != "" && Clean(a.value)
  }

  predicate WritableBinary(b: Binary)
  {
    && Clean(b.name)
    && ATTR_OBJECT_PREFIX + b.name != ATTR_OBJECT_COUNT && ATTR_OBJECT_PREFIX + b.name != ATTR_OBJECT_LENGTH
  }

  predicate Writable(f: File)
  {
    && (forall i :: 0 <= i < |f.attrs| ==> WritableAttr(f.attrs[i]))
    && (forall i :: 0 <= i < |f.binaries| ==> WritableBinary(f.binaries[i]))
  }

  /** One terminated line is parsed, and the loop goes on behind it. */
  lemma OneLine(line: string, rest: string, f: File)
    requires '\n' !in line
    ensures ParseHead(line + "\n" + rest, f)
         == match ParseLine(line, f)
            case Stuck => Lost
            case End => Found(f, rest)
            case Next(g) => ParseHead(rest, g)
  {
    hide ParseLine;
    var all := line + "\n" + rest;
    IndexOf(line, '\n', rest);
    assert all[..|line|] == line && all[|line| + 1..] == rest;
  }

  /** How an attribute comes back: split at the first two equals signs. None when that leaves the parser stuck. */
  function ReadAttr(a: Attr): Option<Attr>
  {
    var text := a.name + "=" + a.value;
    var k := Index(text, '=');
    assert k < |text| by {
      assert text[|a.name|] == '=';
    }
    var after := text[k + 1..];
    if k == 0 || after == "" then None else Some(Attr(text[..k], after[..Index(after, '=')]))
  }

  function ReadAttrs(attrs: seq<Attr>): Option<seq<Attr>>
  {
    if attrs == [] then Some([])
    else
      var first, rest := ReadAttr(attrs[0]), ReadAttrs(attrs[1..]);
      if first.None? || rest.None? then None else Some([first.value] + rest.value)
  }

  /** A name without an equals sign is kept, and the value is cut at its first one. */
  lemma ReadAttrCuts(a: Attr)
    requires a.name != "" && '=' !in a.name
    ensures ReadAttr(a) == if a.value == "" then None else Some(Attr(a.name, a.value[..Index(a.value, '=')]))
  {
    var text := a.name + "=" + a.value;
    IndexOf(a.name, '=', a.value);
    assert text[..|a.name|] == a.name && text[|a.name| + 1..] == a.value;
  }

  lemma IndexOfAbsent(text: string, c: char)
    requires c !in text
    ensures Index(text, c) == |text|
  {
  }

  /** The attributes that come back unchanged. */
  lemma {:induction false} ReadAttrsSame(attrs: seq<Attr>)
    requires forall i :: 0 <= i < |attrs| ==> attrs[i].name != "" && Clean(attrs[i].name) && Clean(attrs[i].value)
    ensures ReadAttrs(attrs)
         == if forall i :: 0 <= i < |attrs| ==> attrs[i].value != "" then Some(attrs) else None
  {
    hide ReadAttr;
    if attrs != [] {
      ReadAttrCuts(attrs[0]);
      IndexOfAbsent(attrs[0].value, '=');
      assert attrs[0].value[..|attrs[0].value|] == attrs[0].value && [attrs[0]] + attrs[1..] == attrs;
      ReadAttrsSame(attrs[1..]);
      assert forall i :: 0 < i < |attrs| ==> attrs[i] == attrs[1..][i - 1];
      assert forall i :: 0 <= i < |attrs| - 1 ==> attrs[1..][i] == attrs[i + 1];
    }
  }

  /** The first two fields. */
  lemma FirstFields(text: string, c: char)
    requires c in text
    ensures var k := Index(text, c);
            && k < |text|
            && (text[k + 1..] == "" ==> |Fields(text, c)| == 1)
            && (text[k + 1..] != "" ==>
                  && |Fields(text, c)| >= 2 && Fields(text, c)[0] == text[..k]
                  && Fields(text, c)[1] == text[k + 1..][..Index(text[k + 1..], c)])
  {
    hide Fields;
    var k := Index(text, c);
    FieldsStep(text, c);
    var after := text[k + 1..];
    if after == "" {
      NoFields(after, c);
    } else {
      FieldsStep(after, c);
    }
  }

  /** A name and value that make one line, of an attribute. */
  predicate AttrOnALine(a: Attr)
  {
    a.name != "" && a.name[0] != '$' && '\n' !in a.name && '\n' !in a.value
  }

  lemma AttrLine(a: Attr, f: File)
    requires AttrOnALine(a)
    ensures '\n' !in a.name + "=" + a.value
    ensures ParseLine(a.name + "=" + a.value, f)
         == match ReadAttr(a) case None => Stuck case Some(b) => Next(f.(attrs := f.attrs + [b]))
  {
    hide Fields, Index, ParseLine;
    var text := a.name + "=" + a.value;
    var k := Index(text, '=');
    assert text[|a.name|] == '=' && text[0] == a.name[0] && text != "";
    FirstFields(text, '=');
    assert k > 0 ==> text[..k] != "" && text[..k][0] == text[0];
    OrdinaryLine(text, f);
  }

  /** Lines whose name is none of the parser's own. */
  lemma OrdinaryLine(line: string, f: File)
    ensures |Fields(line, '=')| < 2 ==> ParseLine(line, f) == Stuck
    ensures |Fields(line, '=')| >= 2 ==>
              var name, value := Fields(line, '=')[0], Fields(line, '=')[1];
              && (name == "" ==> ParseLine(line, f) == Stuck)
              && (name != "" && name[0] != '$' ==>
                    ParseLine(line, f) == Next(f.(attrs := f.attrs + [Attr(name, value)])))
  {
    hide Fields, Strtoull, AfterSystemAttr, Resized;
  }

  lemma {:induction false} ParseAttrLines(attrs: seq<Attr>, rest: string, f: File)
    requires forall i :: 0 <= i < |attrs| ==> AttrOnALine(attrs[i])
    ensures ParseHead(AttrLines(attrs) + rest, f)
         == match ReadAttrs(attrs)
            case None => Lost
            case Some(back) => ParseHead(rest, f.(attrs := f.attrs + back))
    decreases attrs
  {
    hide ParseHead, ParseLine, ReadAttr, AttrOnALine;
    if attrs == [] {
      assert AttrLines(attrs) + rest == rest && f.attrs + [] == f.attrs;
    } else {
      var a, tail := attrs[0], attrs[1..];
      AttrLine(a, f);
      var line := a.name + "=" + a.value;
      assert AttrLines(attrs) + rest == line + "\n" + (AttrLines(tail) + rest);
      OneLine(line, AttrLines(tail) + rest, f);
      if ReadAttr(a).Some? {
        var b := ReadAttr(a).value;
        ParseAttrLines(tail, rest, f.(attrs := f.attrs + [b]));
        var back := ReadAttrs(tail);
        assert back.Some? ==> f.attrs + [b] + back.value == f.attrs + ([b] + back.value);
      }
    }
  }

  lemma DigitsOnly(n: nat, c: char)
    requires !IsDigit(c)
    ensures c !in ToString(n)
  {
  }

  lemma PositionFields(b: Binary)
    requires b.offset <= ULLONG_MAX && b.length <= ULLONG_MAX
    ensures Position(b) != "" && '=' !in Position(b) && '\n' !in Position(b)
    ensures Fields(Position(b), ',') == [ToString(b.offset), ToString(b.length)]
    ensures Strtoull(ToString(b.offset)) == b.offset && Strtoull(ToString(b.length)) == b.length
    ensures Strtoull(Position(b)) == b.offset
  {
    hide ToString, Strtoull, Fields;
    DigitsOnly(b.offset, ',');
    DigitsOnly(b.length, ',');
    TwoFields(ToString(b.offset), ',', ToString(b.length));
    StrtoullOfPrinted(b.offset);
    StrtoullOfPrinted(b.length);
    StrtoullStops(b.offset, ',', ToString(b.length));
  }

  const COUNT := "Count"
  const LENGTH := "Length"

  /** How an object line of a written file is read. Two names collide with lines of the header. */
  function ReadObject(b: Binary, f: File): File
  {
    if b.name == COUNT then f
    else if b.name == LENGTH then f.(buffer := Resized(f.buffer, b.offset))
    else if b.name in f.taken then f
    else if b.offset + b.length > |f.buffer| then f.(taken := f.taken + {b.name})
    else f.(taken := f.taken + {b.name}, binaries := f.binaries + [b])
  }

  function ReadObjects(binaries: seq<Binary>, f: File): File
    decreases binaries
  {
    if binaries == [] then f else ReadObjects(binaries[1..], ReadObject(binaries[0], f))
  }

  lemma BinaryLine(b: Binary, f: File)
    requires Clean(b.name) && b.offset <= MAX_VECTOR_SIZE && b.length <= MAX_VECTOR_SIZE
    ensures '\n' !in ATTR_OBJECT_PREFIX + b.name + "=" + Position(b)
    ensures ParseLine(ATTR_OBJECT_PREFIX + b.name + "=" + Position(b), f) == Next(ReadObject(b, f))
  {
    hide ToString, Strtoull, Fields, Position, Resized;
    var name := ATTR_OBJECT_PREFIX + b.name;
    PositionFields(b);
    TwoFields(name, '=', Position(b));
    assert name[0] == '$' && name[1] == 'O' && ATTR_END[1] == 'E';
    assert name[|ATTR_OBJECT_PREFIX|..] == b.name;
    ReservedNames(b.name);
  }

  lemma ReservedNames(name: string)
    ensures ATTR_OBJECT_PREFIX + name == ATTR_OBJECT_COUNT <==> name == COUNT
    ensures ATTR_OBJECT_PREFIX + name == ATTR_OBJECT_LENGTH <==> name == LENGTH
  {
    assert ATTR_OBJECT_COUNT == ATTR_OBJECT_PREFIX + COUNT && ATTR_OBJECT_LENGTH == ATTR_OBJECT_PREFIX + LENGTH;
    assert (ATTR_OBJECT_PREFIX + name)[|ATTR_OBJECT_PREFIX|..] == name;
    assert ATTR_OBJECT_COUNT[|ATTR_OBJECT_PREFIX|..] == COUNT && ATTR_OBJECT_LENGTH[|ATTR_OBJECT_PREFIX|..] == LENGTH;
  }

  predicate Inside(binaries: seq<Binary>, size: nat)
  {
    forall i :: 0 <= i < |binaries| ==> binaries[i].offset + binaries[i].length <= size
  }

  predicate CleanNames(binaries: seq<Binary>)
  {
    forall i :: 0 <= i < |binaries| ==> Clean(binaries[i].name)
  }

  /** The object lines. */
  lemma {:induction false} ParseBinaryLines(binaries: seq<Binary>, rest: string, f: File)
    requires CleanNames(binaries) && Inside(binaries, MAX_VECTOR_SIZE)
    ensures ParseHead(BinaryLines(binaries) + rest, f) == ParseHead(rest, ReadObjects(binaries, f))
    decreases binaries
  {
    hide ParseHead, ParseLine, Position, ReadObject, Clean;
    if binaries == [] {
      assert BinaryLines(binaries) + rest == rest;
    } else {
      var b, tail := binaries[0], binaries[1..];
      BinaryLine(b, f);
      var line := ATTR_OBJECT_PREFIX + b.name + "=" + Position(b);
      assert BinaryLines(binaries) + rest == line + "\n" + (BinaryLines(tail) + rest);
      OneLine(line, BinaryLines(tail) + rest, f);
      ParseBinaryLines(tail, rest, ReadObject(b, f));
    }
  }

  lemma SystemLine(name: string, value: string, f: File)
    requires Clean(name) && Clean(value) && value != ""
    ensures '\n' !in name + "=" + value
    ensures name == ATTR_END ==> ParseLine(name + "=" + value, f) == End
    ensures name == ATTR_OBJECT_COUNT ==> ParseLine(name + "=" + value, f) == Next(f)
    ensures name == ATTR_VERSION ==> ParseLine(name + "=" + value, f) == Next(f)
    ensures name == ATTR_OBJECT_LENGTH && Strtoull(value) <= MAX_VECTOR_SIZE ==>
              ParseLine(name + "=" + value, f) == Next(f.(buffer := Resized(f.buffer, Strtoull(value))))
  {
    hide Strtoull, Fields, Resized, AfterSystemAttr;
    TwoFields(name, '=', value);
    if name == ATTR_VERSION {
      NotAPrefix(value, f);
    }
  }

  lemma NotAPrefix(value: string, f: File)
    ensures AfterSystemAttr(ATTR_VERSION, value, f) == f
  {
    assert ATTR_VERSION[1] == 'V' && ATTR_OBJECT_PREFIX[1] == 'O';
  }

  /** The three lines in front. */
  lemma FirstLines(count: nat, size: nat, rest: string)
    requires size <= MAX_FILE_SIZE
    ensures ParseHead(Line(ATTR_VERSION, VERSION)
                      + (Line(ATTR_OBJECT_COUNT, ToString(count)) + (Line(ATTR_OBJECT_LENGTH, ToString(size)) + rest)),
                      EMPTY)
         == ParseHead(rest, EMPTY.(buffer := ZeroBuffer(size)))
  {
    hide ParseHead, ParseLine, ToString, Strtoull, ZeroBuffer;
    DigitsOnly(count, '=');
    DigitsOnly(count, '\n');
    DigitsOnly(size, '=');
    DigitsOnly(size, '\n');
    StrtoullOfPrinted(size);
    var three := Line(ATTR_OBJECT_LENGTH, ToString(size)) + rest;
    var two := Line(ATTR_OBJECT_COUNT, ToString(count)) + three;
    SystemLine(ATTR_VERSION, VERSION, EMPTY);
    OneLine(ATTR_VERSION + "=" + VERSION, two, EMPTY);
    SystemLine(ATTR_OBJECT_COUNT, ToString(count), EMPTY);
    OneLine(ATTR_OBJECT_COUNT + "=" + ToString(count), three, EMPTY);
    SystemLine(ATTR_OBJECT_LENGTH, ToString(size), EMPTY);
    OneLine(ATTR_OBJECT_LENGTH + "=" + ToString(size), rest, EMPTY);
    ResizedFromNothing(size);
  }

  lemma Grown(b: string, n: nat)
    requires n >= |b|
    ensures Resized(b, n) == b + ZeroBuffer(n - |b|)
  {
    assert n == |b| ==> b[..n] == b + ZeroBuffer(0);
  }

  lemma ResizedFromNothing(n: nat)
    ensures Resized("", n) == ZeroBuffer(n)
  {
  }

  lemma EndLine(rest: string, f: File)
    ensures ParseHead(Line(ATTR_END, "1") + rest, f) == Found(f, rest)
  {
    hide ParseHead, ParseLine;
    SystemLine(ATTR_END, "1", f);
    OneLine(ATTR_END + "=" + "1", rest, f);
  }

  /** The attributes of a file have different names. */
  predicate DistinctAttrs(attrs: seq<Attr>)
  {
    forall i, j :: 0 <= i < j < |attrs| ==> attrs[i].name != attrs[j].name
  }

  predicate DistinctBinaries(binaries: seq<Binary>)
  {
    forall i, j :: 0 <= i < j < |binaries| ==> binaries[i].name != binaries[j].name
  }

  /** The objects lie in the buffer in their order, without overlap. */
  predicate Ordered(binaries: seq<Binary>)
  {
    forall i, j :: 0 <= i < j < |binaries| ==> binaries[i].offset + binaries[i].length <= binaries[j].offset
  }

  predicate ValidNames(f: File)
  {
    && (forall i :: 0 <= i < |f.attrs| ==> CheckNameValid(f.attrs[i].name))
    && (forall i :: 0 <= i < |f.binaries| ==> CheckNameValid(f.binaries[i].name))
  }

  /** What AddAttr and AddObject keep. */
  predicate Consistent(f: File)
  {
    && ValidNames(f) && DistinctAttrs(f.attrs) && DistinctBinaries(f.binaries) && f.taken == BinaryNames(f.binaries)
    && Ordered(f.binaries) && Inside(f.binaries, |f.buffer|) && |f.buffer| <= MAX_FILE_SIZE
  }

  /** Every attribute and object is written on one line of its own. */
  predicate OneLineEach(f: File)
  {
    && (forall i :: 0 <= i < |f.attrs| ==> '\n' !in f.attrs[i].value)
    && CleanNames(f.binaries)
  }

  /** What Read makes of such a file. */
  function ReadOf(f: File): ReadResult
  {
    match ReadAttrs(f.attrs)
    case None => Undefined
    case Some(attrs) =>
      var g := ReadObjects(f.binaries, File(attrs, [], ZeroBuffer(|f.buffer|), {}));
      if |g.buffer| > |f.buffer| then Failure(g) else Success(g.(buffer := f.buffer[..|g.buffer|]))
  }

  /** The header of a written file. */
  lemma ParseWritten(f: File)
    requires Consistent(f) && OneLineEach(f)
    ensures ParseHead(Written(f), EMPTY)
         == match ReadAttrs(f.attrs)
            case None => Lost
            case Some(attrs) => Found(ReadObjects(f.binaries, File(attrs, [], ZeroBuffer(|f.buffer|), {})), f.buffer)
  {
    hide ParseHead, ParseLine, ToString, ZeroBuffer, Line, AttrLines, BinaryLines, ReadAttrs, ReadObjects, Inside;
    hide CheckNameValid, Clean;
    var end := Line(ATTR_END, "1") + f.buffer;
    var objects := BinaryLines(f.binaries) + end;
    FirstLines(|f.binaries|, |f.buffer|, AttrLines(f.attrs) + objects);
    var g := EMPTY.(buffer := ZeroBuffer(|f.buffer|));
    NamesOnALine(f);
    ParseAttrLines(f.attrs, objects, g);
    if ReadAttrs(f.attrs).Some? {
      var attrs := ReadAttrs(f.attrs).value;
      assert g.attrs + attrs == attrs;
      var h := File(attrs, [], ZeroBuffer(|f.buffer|), {});
      ParseBinaryLines(f.binaries, end, h);
      EndLine(f.buffer, ReadObjects(f.binaries, h));
    }
  }

  lemma NamesOnALine(f: File)
    requires Consistent(f) && OneLineEach(f)
    ensures forall i :: 0 <= i < |f.attrs| ==> AttrOnALine(f.attrs[i])
    ensures Inside(f.binaries, MAX_VECTOR_SIZE)
  {
  }

  lemma ReadWritten(f: File)
    requires Consistent(f) && OneLineEach(f)
    ensures Parse(Written(f), EMPTY) == if |Written(f)| > MAX_FILE_SIZE then Failure(EMPTY) else ReadOf(f)
  {
    hide ParseHead, Written, Consistent, OneLineEach, ReadAttrs, ReadObjects;
    ParseWritten(f);
  }

  // -------------------------------------------------------------- round trip

  /** Objects with no reserved or taken name that fit come back. */
  lemma {:induction false} ReadObjectsSame(binaries: seq<Binary>, f: File)
    requires DistinctBinaries(binaries) && Inside(binaries, |f.buffer|)
    requires forall i :: 0 <= i < |binaries| ==> binaries[i].name !in f.taken + {COUNT, LENGTH}
    ensures ReadObjects(binaries, f)
         == f.(binaries := f.binaries + binaries, taken := f.taken + BinaryNames(binaries))
    decreases binaries
  {
    if binaries == [] {
      assert f.binaries + binaries == f.binaries && f.taken + BinaryNames(binaries) == f.taken;
    } else {
      var b, tail := binaries[0], binaries[1..];
      var g := f.(taken := f.taken + {b.name}, binaries := f.binaries + [b]);
      assert ReadObject(b, f) == g;
      assert forall i :: 0 <= i < |tail| ==> tail[i] == binaries[i + 1];
      ReadObjectsSame(tail, g);
      assert g.binaries + tail == f.binaries + binaries;
      BinaryNamesCons(b, tail);
      assert binaries == [b] + tail;
    }
  }

  lemma BinaryNamesCons(b: Binary, tail: seq<Binary>)
    ensures BinaryNames([b] + tail) == {b.name} + BinaryNames(tail)
  {
    var all := [b] + tail;
    assert all[0] == b;
    forall i | 0 <= i < |tail|
      ensures tail[i].name in BinaryNames(all)
    {
      assert all[i + 1] == tail[i];
    }
  }

  /** Exactly when reading what was written gives it back. */
  predicate ReadsBack(f: File)
  {
    Writable(f) && |Written(f)| <= MAX_FILE_SIZE
  }

  /** Whatever is parsed has names and values that are fields; only an empty value cannot be written again. */
  predicate Fieldlike(f: File)
  {
    && (forall i :: 0 <= i < |f.attrs| ==>
          && f.attrs[i].name != "" && f.attrs[i].name[0] != '$'
          && Clean(f.attrs[i].name) && Clean(f.attrs[i].value))
    && (forall i :: 0 <= i < |f.binaries| ==> WritableBinary(f.binaries[i]))
  }

  lemma ParseLineFieldlike(line: string, f: File)
    requires Fieldlike(f) && '\n' !in line && ParseLine(line, f).Next?
    ensures Fieldlike(ParseLine(line, f).f)
  {
    hide Strtoull, Resized, Index;
    var fields := Fields(line, '=');
    FieldsClean(line, '=', 0);
    FieldsClean(line, '=', 1);
    var name, value := fields[0], fields[1];
    if ATTR_OBJECT_PREFIX <= name {
      var objName := name[|ATTR_OBJECT_PREFIX|..];
      assert name == ATTR_OBJECT_PREFIX + objName;
      assert forall x :: x in objName ==> x in name;
    }
  }

  lemma {:induction false} ParsedIsFieldlike(rest: string, f: File)
    requires Fieldlike(f)
    ensures var r := ParseHead(rest, f); r.Found? ==> Fieldlike(r.f)
    decreases |rest|
  {
    hide ParseLine, Fieldlike;
    if rest != [] {
      var k := Index(rest, '\n');
      var result := ParseLine(rest[..k], f);
      if result.Next? {
        ParseLineFieldlike(rest[..k], f);
        ParsedIsFieldlike(if k == |rest| then [] else rest[k + 1..], result.f);
      }
    }
  }

  lemma WritableNotReserved(f: File)
    requires forall i :: 0 <= i < |f.binaries| ==> WritableBinary(f.binaries[i])
    ensures CleanNames(f.binaries)
    ensures forall i :: 0 <= i < |f.binaries| ==> f.binaries[i].name !in {COUNT, LENGTH}
  {
    forall i | 0 <= i < |f.binaries|
      ensures f.binaries[i].name !in {COUNT, LENGTH}
    {
      ReservedNames(f.binaries[i].name);
    }
  }

  /** All objects come back when none has a reserved name. */
  lemma ObjectsReadBack(f: File, attrs: seq<Attr>)
    requires Consistent(f) && forall i :: 0 <= i < |f.binaries| ==> f.binaries[i].name !in {COUNT, LENGTH}
    ensures ReadObjects(f.binaries, File(attrs, [], ZeroBuffer(|f.buffer|), {}))
         == File(attrs, f.binaries, ZeroBuffer(|f.buffer|), f.taken)
  {
    hide ReadObjects, CheckNameValid;
    ReadObjectsSame(f.binaries, File(attrs, [], ZeroBuffer(|f.buffer|), {}));
    assert [] + f.binaries == f.binaries && {} + f.taken == f.taken;
  }

  lemma ReadOfWritable(f: File)
    requires Consistent(f) && Writable(f)
    ensures OneLineEach(f) && ReadOf(f) == Success(f)
  {
    hide ReadAttrs, ReadObjects, CheckNameValid;
    ReadAttrsSame(f.attrs);
    WritableNotReserved(f);
    ObjectsReadBack(f, f.attrs);
    assert f.buffer[..|f.buffer|] == f.buffer;
  }

  /** The round trip, and exactly when it holds. */
  lemma RoundTrip(f: File)
    requires Consistent(f)
    ensures Parse(Written(f), EMPTY) == Success(f) <==> ReadsBack(f)
  {
    hide ParseHead, Written, ReadOf, WritableBinary;
    if Writable(f) {
      ReadOfWritable(f);
      ReadWritten(f);
    }
    if Parse(Written(f), EMPTY) == Success(f) {
      ParsedIsFieldlike(Written(f), EMPTY);
      SameOnlyIfWritable(f);
    }
  }

  lemma SameOnlyIfWritable(f: File)
    requires Consistent(f) && Fieldlike(f) && Parse(Written(f), EMPTY) == Success(f)
    ensures ReadsBack(f)
  {
    hide Parse, Written, ReadObjects;
    ReadWritten(f);
    ReadAttrsSame(f.attrs);
    hide ReadAttrs;
    assert |Written(f)| <= MAX_FILE_SIZE && ReadOf(f) == Success(f);
    assert ReadAttrs(f.attrs).Some?;
  }

  // ------------------------------------------------------------ silent losses

  /** GetAllObjects: each object's name and its bytes in the buffer. */
  function AllObjects(f: File): (r: seq<(string, string)>)
    requires Inside(f.binaries, |f.buffer|)
    ensures |r| == |f.binaries|
  {
    seq(|f.binaries|, i requires 0 <= i < |f.binaries| =>
      (f.binaries[i].name, f.buffer[f.binaries[i].offset..f.binaries[i].offset + f.binaries[i].length]))
  }

  /** The attributes with every value cut at its first equals sign. */
  function CutValues(attrs: seq<Attr>): (r: seq<Attr>)
    ensures |r| == |attrs|
  {
    seq(|attrs|, i requires 0 <= i < |attrs| => Attr(attrs[i].name, attrs[i].value[..Index(attrs[i].value, '=')]))
  }

  lemma {:induction false} ReadAttrsCut(attrs: seq<Attr>)
    requires forall i :: 0 <= i < |attrs| ==> attrs[i].name != "" && '=' !in attrs[i].name && attrs[i].value != ""
    ensures ReadAttrs(attrs) == Some(CutValues(attrs))
  {
    hide ReadAttr, Index;
    if attrs != [] {
      ReadAttrCuts(attrs[0]);
      ReadAttrsCut(attrs[1..]);
      assert CutValues(attrs) == [CutValues(attrs)[0]] + CutValues(attrs[1..]);
    }
  }

  /** With equals signs in values, Read reports success and has cut the values. */
  lemma EqualsInValues(f: File)
    requires Consistent(f) && |Written(f)| <= MAX_FILE_SIZE
    requires forall i :: 0 <= i < |f.attrs| ==>
               '=' !in f.attrs[i].name && f.attrs[i].value != "" && '\n' !in f.attrs[i].value
    requires forall i :: 0 <= i < |f.binaries| ==> WritableBinary(f.binaries[i])
    ensures Parse(Written(f), EMPTY) == Success(f.(attrs := CutValues(f.attrs)))
  {
    hide Written, ReadObjects, ReadAttrs, CutValues, WritableBinary, ValidNames, CleanNames;
    hide Inside, Ordered, DistinctAttrs, DistinctBinaries, BinaryNames;
    WritableNotReserved(f);
    ReadWritten(f);
    ValidNamesNonEmpty(f);
    ReadAttrsCut(f.attrs);
    ObjectsReadBack(f, CutValues(f.attrs));
    assert f.buffer[..|f.buffer|] == f.buffer;
  }

  lemma ValidNamesNonEmpty(f: File)
    requires ValidNames(f)
    ensures forall i :: 0 <= i < |f.attrs| ==> f.attrs[i].name != ""
  {
  }

  lemma {:induction false} ReadObjectsAppend(a: seq<Binary>, b: seq<Binary>, f: File)
    ensures ReadObjects(a + b, f) == ReadObjects(b, ReadObjects(a, f))
    decreases a
  {
    if a == [] {
      assert a + b == b;
    } else {
      assert (a + b)[1..] == a[1..] + b;
      ReadObjectsAppend(a[1..], b, ReadObject(a[0], f));
    }
  }

  /** Objects that do not fit only leave their names. */
  lemma {:induction false} ReadObjectsDropped(binaries: seq<Binary>, f: File)
    requires DistinctBinaries(binaries)
    requires forall i :: 0 <= i < |binaries| ==>
               binaries[i].name !in f.taken + {COUNT, LENGTH} && binaries[i].offset > |f.buffer|
    ensures ReadObjects(binaries, f) == f.(taken := f.taken + BinaryNames(binaries))
    decreases binaries
  {
    if binaries == [] {
      assert f.taken + BinaryNames(binaries) == f.taken;
    } else {
      var b, tail := binaries[0], binaries[1..];
      assert forall i :: 0 <= i < |tail| ==> tail[i] == binaries[i + 1];
      ReadObjectsDropped(tail, ReadObject(b, f));
      BinaryNamesCons(b, tail);
      assert binaries == [b] + tail;
    }
  }

  /**
   An object called Length: Read reports success, but the object and all behind it are gone, and the buffer
   ends where that object began.
   */
  lemma ObjectCalledLength(f: File, k: nat)
    requires Consistent(f) && |Written(f)| <= MAX_FILE_SIZE && k < |f.binaries|
    requires forall i :: 0 <= i < |f.attrs| ==> WritableAttr(f.attrs[i])
    requires CleanNames(f.binaries) && forall i :: 0 <= i < |f.binaries| ==> f.binaries[i].name != COUNT
    requires f.binaries[k].name == LENGTH && f.binaries[k].length > 0
    ensures Parse(Written(f), EMPTY)
         == Success(File(f.attrs, f.binaries[..k], f.buffer[..f.binaries[k].offset],
                         BinaryNames(f.binaries[..k]) + BinaryNames(f.binaries[k + 1..])))
    ensures Inside(f.binaries[..k], f.binaries[k].offset)
    ensures AllObjects(File(f.attrs, f.binaries[..k], f.buffer[..f.binaries[k].offset], {})) == AllObjects(f)[..k]
  {
    hide Written, ReadAttrs, CheckNameValid, Clean, ReadObjects;
    var offset := f.binaries[k].offset;
    var before, b, after := f.binaries[..k], f.binaries[k], f.binaries[k + 1..];
    WritableAttrsReadBack(f);
    ReadWritten(f);
    var start := File(f.attrs, [], ZeroBuffer(|f.buffer|), {});
    assert f.binaries == before + ([b] + after);
    LengthSplits(f, k);
    ReadObjectsAppend(before, [b] + after, start);
    ReadObjectsSame(before, start);
    var g := start.(binaries := [] + before, taken := {} + BinaryNames(before));
    LengthStep(b, after, g);
    var h := g.(buffer := Resized(g.buffer, offset));
    ReadObjectsDropped(after, h);
    assert [] + before == before && {} + BinaryNames(before) == BinaryNames(before);
    FrontObjects(f, k, offset);
  }

  lemma FrontObjects(f: File, k: nat, size: nat)
    requires k <= |f.binaries| && size <= |f.buffer|
    requires Inside(f.binaries, |f.buffer|) && Inside(f.binaries[..k], size)
    ensures AllObjects(File(f.attrs, f.binaries[..k], f.buffer[..size], {})) == AllObjects(f)[..k]
  {
    forall i | 0 <= i < k
      ensures AllObjects(File(f.attrs, f.binaries[..k], f.buffer[..size], {}))[i] == AllObjects(f)[i]
    {
      var b := f.binaries[i];
      assert f.binaries[..k][i] == b;
      assert f.buffer[..size][b.offset..b.offset + b.length] == f.buffer[b.offset..b.offset + b.length];
    }
  }

  lemma WritableAttrsReadBack(f: File)
    requires (forall i :: 0 <= i < |f.attrs| ==> WritableAttr(f.attrs[i])) && CleanNames(f.binaries)
    ensures OneLineEach(f) && ReadAttrs(f.attrs) == Some(f.attrs)
  {
    hide ReadAttrs;
    ReadAttrsSame(f.attrs);
  }

  lemma LengthStep(b: Binary, after: seq<Binary>, g: File)
    requires b.name == LENGTH
    ensures ReadObjects([b] + after, g) == ReadObjects(after, g.(buffer := Resized(g.buffer, b.offset)))
  {
    hide Resized;
    assert ([b] + after)[1..] == after;
  }

  lemma LengthSplits(f: File, k: nat)
    requires Consistent(f) && k < |f.binaries|
    requires forall i :: 0 <= i < |f.binaries| ==> f.binaries[i].name != COUNT
    requires f.binaries[k].name == LENGTH && f.binaries[k].length > 0
    ensures var before, after, offset := f.binaries[..k], f.binaries[k + 1..], f.binaries[k].offset;
            && offset <= |f.buffer| && DistinctBinaries(before) && DistinctBinaries(after) && Inside(before, offset)
            && (forall i :: 0 <= i < |before| ==> before[i].name !in {COUNT, LENGTH})
            && (forall i :: 0 <= i < |after| ==>
                  after[i].name !in BinaryNames(before) + {COUNT, LENGTH} && after[i].offset > offset)
  {
    hide CheckNameValid;
    var before, after := f.binaries[..k], f.binaries[k + 1..];
    assert forall i :: 0 <= i < |after| ==> after[i] == f.binaries[k + 1 + i];
  }

  /** An object called Count is not read back; everything else is. */
  lemma ObjectCalledCount(f: File, k: nat)
    requires Consistent(f) && |Written(f)| <= MAX_FILE_SIZE && k < |f.binaries|
    requires forall i :: 0 <= i < |f.attrs| ==> WritableAttr(f.attrs[i])
    requires CleanNames(f.binaries) && forall i :: 0 <= i < |f.binaries| ==> f.binaries[i].name != LENGTH
    requires f.binaries[k].name == COUNT
    ensures var rest := f.binaries[..k] + f.binaries[k + 1..];
            Parse(Written(f), EMPTY) == Success(File(f.attrs, rest, f.buffer, BinaryNames(rest)))
  {
    hide Written, ReadAttrs, CheckNameValid, Clean, ReadObjects;
    var before, b, after := f.binaries[..k], f.binaries[k], f.binaries[k + 1..];
    WritableAttrsReadBack(f);
    ReadWritten(f);
    var start := File(f.attrs, [], ZeroBuffer(|f.buffer|), {});
    assert f.binaries == before + ([b] + after);
    ReadObjectsAppend(before, [b] + after, start);
    ReadObjectsAppend(before, after, start);
    CountStep(b, after, ReadObjects(before, start));
    var rest := before + after;
    WithoutOne(f, k);
    ReadObjectsSame(rest, start);
    assert [] + rest == rest && {} + BinaryNames(rest) == BinaryNames(rest);
    assert f.buffer[..|f.buffer|] == f.buffer;
  }

  lemma CountStep(b: Binary, after: seq<Binary>, g: File)
    requires b.name == COUNT
    ensures ReadObjects([b] + after, g) == ReadObjects(after, g)
  {
    assert ([b] + after)[1..] == after;
  }

  lemma WithoutOne(f: File, k: nat)
    requires Consistent(f) && k < |f.binaries|
    ensures var rest := f.binaries[..k] + f.binaries[k + 1..];
            && DistinctBinaries(rest) && Inside(rest, |f.buffer|)
            && forall i :: 0 <= i < |rest| ==> rest[i] in f.binaries && rest[i].name != f.binaries[k].name
  {
    hide CheckNameValid;
    var rest := f.binaries[..k] + f.binaries[k + 1..];
    assert forall i :: 0 <= i < |rest| ==> rest[i] == f.binaries[if i < k then i else i + 1];
  }

  /** A value with a newline comes back as more attributes. */
  lemma NewlineInValue(a: Attr, b: Attr, rest: seq<Attr>, f: File)
    ensures Written(f.(attrs := [Attr(a.name, a.value + "\n" + b.name + "=" + b.value)] + rest))
         == Written(f.(attrs := [a, b] + rest))
  {
    var joined := Attr(a.name, a.value + "\n" + b.name + "=" + b.value);
    assert ([joined] + rest)[1..] == rest && ([a, b] + rest)[1..] == [b] + rest && ([b] + rest)[1..] == rest;
    var tail := AttrLines(rest);
    assert AttrLines([joined] + rest) == Line(joined.name, joined.value) + tail;
    assert AttrLines([a, b] + rest) == Line(a.name, a.value) + (Line(b.name, b.value) + tail);
    assert Line(joined.name, joined.value) + tail == Line(a.name, a.value) + (Line(b.name, b.value) + tail);
  }

  // ------------------------------------------------------ building the file

  datatype Call = AddAttr(name: string, value: string) | AddObject(name: string, data: Option<string>)

  /** The checks in front of any change. */
  predicate Enters(f: File, c: Call)
  {
    match c
    case AddAttr(name, _) => CheckNameValid(name) && name !in Names(f.attrs)
    case AddObject(name, data) =>
      && CheckNameValid(name) && data.Some? && |f.buffer| + |data.value| <= MAX_FILE_SIZE
      && name !in f.taken
  }

  /** memcpy_s refuses a destination of more than rsizeMax bytes, and AddObject passes it all the room there is. */
  predicate TooLong(c: Call, rsizeMax: nat)
  {
    c.AddObject? && c.data.Some? && |c.data.value| > rsizeMax
  }

  /** Whether a call reports success. */
  predicate Accepts(f: File, c: Call, rsizeMax: nat)
  {
    Enters(f, c) && !TooLong(c, rsizeMax)
  }

  /** What the buffer gets: the data, or when the first copy is refused the zeros it was grown by. */
  function Copied(data: string, rsizeMax: nat): (r: string)
    ensures |r| == |data|
  {
    if |data| <= rsizeMax then data else ZeroBuffer(|data|)
  }

  /** The effect of a call. One whose copy is refused has entered its object all the same. */
  function Apply(f: File, c: Call, rsizeMax: nat): File
  {
    if !Enters(f, c) then f
    else match c
         case AddAttr(name, value) => f.(attrs := f.attrs + [Attr(name, value)])
         case AddObject(name, data) =>
           File(f.attrs, f.binaries + [Binary(name, |f.buffer|, |data.value|)],
                f.buffer + Copied(data.value, rsizeMax), f.taken + {name})
  }

  function Build(calls: seq<Call>, rsizeMax: nat): File
  {
    if calls == [] then EMPTY else Apply(Build(calls[..|calls| - 1], rsizeMax), calls[|calls| - 1], rsizeMax)
  }

  /** The calls that changed the file. */
  function Entered(calls: seq<Call>, rsizeMax: nat): seq<Call>
  {
    if calls == [] then []
    else
      var front, c := calls[..|calls| - 1], calls[|calls| - 1];
      Entered(front, rsizeMax) + if Enters(Build(front, rsizeMax), c) then [c] else []
  }

  /** The calls that reported success. */
  function Accepted(calls: seq<Call>, rsizeMax: nat): seq<Call>
  {
    if calls == [] then []
    else
      var front, c := calls[..|calls| - 1], calls[|calls| - 1];
      Accepted(front, rsizeMax) + if Accepts(Build(front, rsizeMax), c, rsizeMax) then [c] else []
  }

  /** What GetAllAttrs and GetAllObjects should give back, in order. */
  function AttrsOf(calls: seq<Call>): seq<Attr>
  {
    if calls == [] then []
    else
      var c := calls[|calls| - 1];
      AttrsOf(calls[..|calls| - 1]) + if c.AddAttr? then [Attr(c.name, c.value)] else []
  }

  function ObjectsOf(calls: seq<Call>, rsizeMax: nat): seq<(string, string)>
  {
    if calls == [] then []
    else
      var c := calls[|calls| - 1];
      ObjectsOf(calls[..|calls| - 1], rsizeMax)
      + if c.AddObject? && c.data.Some? then [(c.name, Copied(c.data.value, rsizeMax))] else []
  }

  /** Adding keeps the file consistent and every earlier object's bytes, and appends what was given. */
  lemma ApplyAppends(f: File, c: Call, rsizeMax: nat)
    requires Consistent(f)
    ensures Consistent(Apply(f, c, rsizeMax))
    ensures AllObjects(Apply(f, c, rsizeMax))
         == AllObjects(f) + if Enters(f, c) && c.AddObject? then [(c.name, Copied(c.data.value, rsizeMax))] else []
    ensures Apply(f, c, rsizeMax).attrs
         == f.attrs + if Enters(f, c) && c.AddAttr? then [Attr(c.name, c.value)] else []
  {
    hide Copied;
    var g := Apply(f, c, rsizeMax);
    if Enters(f, c) {
      if c.AddObject? {
        BinaryNamesSnoc(f.binaries, Binary(c.name, |f.buffer|, |c.data.value|));
        var last := g.binaries[|f.binaries|];
        assert g.buffer[last.offset..last.offset + last.length] == Copied(c.data.value, rsizeMax);
        forall i | 0 <= i < |f.binaries|
          ensures AllObjects(g)[i] == AllObjects(f)[i]
        {
          var b := f.binaries[i];
          assert g.buffer[b.offset..b.offset + b.length] == f.buffer[b.offset..b.offset + b.length];
        }
        forall i | 0 <= i < |f.binaries|
          ensures f.binaries[i].name != c.name
        {
          assert f.binaries[i].name in BinaryNames(f.binaries);
        }
      } else {
        forall i | 0 <= i < |f.attrs|
          ensures f.attrs[i].name != c.name
        {
          assert f.attrs[i].name in Names(f.attrs);
        }
      }
    }
  }

  /** After any calls, the file holds what the calls that changed it gave it, in order. */
  lemma {:induction false} BuildHolds(calls: seq<Call>, rsizeMax: nat)
    ensures Consistent(Build(calls, rsizeMax)) && Build(calls, rsizeMax).attrs == AttrsOf(Entered(calls, rsizeMax))
    ensures AllObjects(Build(calls, rsizeMax)) == ObjectsOf(Entered(calls, rsizeMax), rsizeMax)
  {
    hide Enters, AllObjects, Consistent, Apply, Copied;
    if calls == [] {
      EmptyFile();
    } else {
      var front, c := calls[..|calls| - 1], calls[|calls| - 1];
      BuildHolds(front, rsizeMax);
      ApplyAppends(Build(front, rsizeMax), c, rsizeMax);
      if Enters(Build(front, rsizeMax), c) {
        var done := Entered(front, rsizeMax) + [c];
        assert done[..|done| - 1] == Entered(front, rsizeMax);
        if c.AddObject? {
          EnteredData(Build(front, rsizeMax), c);
        }
      } else {
        assert Entered(calls, rsizeMax) == Entered(front, rsizeMax);
      }
    }
  }

  /** The lengths of the first k objects that were entered. */
  function LengthBefore(objects: seq<(string, string)>, k: nat): nat
    requires k <= |objects|
  {
    if k == 0 then 0 else LengthBefore(objects, k - 1) + |objects[k - 1].1|
  }

  lemma {:induction false} LengthBeforeFront(a: seq<(string, string)>, b: seq<(string, string)>, k: nat)
    requires k <= |a|
    ensures LengthBefore(a + b, k) == LengthBefore(a, k)
  {
    if k > 0 {
      LengthBeforeFront(a, b, k - 1);
    }
  }

  /** Each object is recorded with the sum of the lengths before it and its own, and the buffer has them all. */
  predicate AddsUp(f: File, objects: seq<(string, string)>)
  {
    && |f.binaries| == |objects| && |f.buffer| == LengthBefore(objects, |objects|)
    && forall k :: 0 <= k < |objects| ==>
         f.binaries[k] == Binary(objects[k].0, LengthBefore(objects, k), |objects[k].1|)
  }

  lemma AddsUpNext(f: File, g: File, objects: seq<(string, string)>, o: (string, string))
    requires AddsUp(f, objects) && |g.buffer| == |f.buffer| + |o.1|
    requires g.binaries == f.binaries + [Binary(o.0, |f.buffer|, |o.1|)]
    ensures AddsUp(g, objects + [o])
  {
    hide LengthBefore;
    var all := objects + [o];
    forall k | 0 <= k <= |objects|
      ensures LengthBefore(all, k) == LengthBefore(objects, k)
    {
      LengthBeforeFront(objects, [o], k);
    }
    LengthBeforeNext(all, |objects|);
    forall k | 0 <= k < |all|
      ensures g.binaries[k] == Binary(all[k].0, LengthBefore(all, k), |all[k].1|)
    {
      assert k < |objects| ==> g.binaries[k] == f.binaries[k] && all[k] == objects[k];
    }
  }

  lemma LengthBeforeNext(objects: seq<(string, string)>, k: nat)
    requires k < |objects|
    ensures LengthBefore(objects, k + 1) == LengthBefore(objects, k) + |objects[k].1|
  {
  }

  lemma {:induction false} OffsetsAddUp(calls: seq<Call>, rsizeMax: nat)
    ensures AddsUp(Build(calls, rsizeMax), ObjectsOf(Entered(calls, rsizeMax), rsizeMax))
  {
    hide Enters, Copied, AddsUp, LengthBefore;
    if calls == [] {
      assert AddsUp(EMPTY, []) by { NothingAddsUp(); }
    } else {
      var front, c := calls[..|calls| - 1], calls[|calls| - 1];
      OffsetsAddUp(front, rsizeMax);
      var f, objects := Build(front, rsizeMax), ObjectsOf(Entered(front, rsizeMax), rsizeMax);
      if Enters(f, c) {
        var done := Entered(front, rsizeMax) + [c];
        assert done[..|done| - 1] == Entered(front, rsizeMax);
        if c.AddObject? {
          EnteredData(f, c);
          AddsUpNext(f, Apply(f, c, rsizeMax), objects, (c.name, Copied(c.data.value, rsizeMax)));
        } else {
          assert objects + [] == objects;
          OtherAddsUp(f, Apply(f, c, rsizeMax), objects);
        }
      } else {
        assert Entered(calls, rsizeMax) == Entered(front, rsizeMax);
      }
    }
  }

  lemma NothingAddsUp()
    ensures AddsUp(EMPTY, [])
  {
  }

  lemma OtherAddsUp(f: File, g: File, objects: seq<(string, string)>)
    requires AddsUp(f, objects) && g.binaries == f.binaries && g.buffer == f.buffer
    ensures AddsUp(g, objects)
  {
  }

  /**
   For any sequence of calls, the written bytes say in front how many objects were entered and how many bytes they
   have together, and on a line for each object where its bytes begin and how many there are.
   */
  lemma WrittenAddsUp(calls: seq<Call>, rsizeMax: nat)
    ensures var bytes, objects := Written(Build(calls, rsizeMax)), ObjectsOf(Entered(calls, rsizeMax), rsizeMax);
            && LengthBefore(objects, |objects|) <= MAX_FILE_SIZE
            && (|objects| <= ULLONG_MAX ==> SaysInFront(bytes, |objects|, LengthBefore(objects, |objects|)))
            && forall k :: 0 <= k < |objects| ==>
                 SaysObject(bytes, objects[k].0, LengthBefore(objects, k), |objects[k].1|)
  {
    hide Build, Entered, ObjectsOf, Written, SaysObject, SaysInFront, LengthBefore, CheckNameValid;
    var f, objects := Build(calls, rsizeMax), ObjectsOf(Entered(calls, rsizeMax), rsizeMax);
    BuildHolds(calls, rsizeMax);
    OffsetsAddUp(calls, rsizeMax);
    WrittenSays(f);
    forall k | 0 <= k < |objects|
      ensures SaysObject(Written(f), objects[k].0, LengthBefore(objects, k), |objects[k].1|)
    {
      assert f.binaries[k].offset + f.binaries[k].length <= |f.buffer|;
      assert SaysBinary(Written(f), f.binaries[k]);
    }
  }

  predicate NoneTooLong(calls: seq<Call>, rsizeMax: nat)
  {
    forall k :: 0 <= k < |calls| ==> !TooLong(calls[k], rsizeMax)
  }

  /** The calls that succeeded have fewer objects, unless no object was too long. */
  lemma {:induction false} AcceptedObjects(calls: seq<Call>, rsizeMax: nat)
    ensures var a, e := Accepted(calls, rsizeMax), Entered(calls, rsizeMax);
            && (NoneTooLong(e, rsizeMax) ==> a == e)
            && (if NoneTooLong(e, rsizeMax) then |ObjectsOf(a, rsizeMax)| == |ObjectsOf(e, rsizeMax)|
                else |ObjectsOf(a, rsizeMax)| < |ObjectsOf(e, rsizeMax)|)
  {
    hide Enters, Apply, Copied;
    if calls != [] {
      var front, c := calls[..|calls| - 1], calls[|calls| - 1];
      AcceptedObjects(front, rsizeMax);
      var a, e := Accepted(front, rsizeMax), Entered(front, rsizeMax);
      if Enters(Build(front, rsizeMax), c) {
        assert (e + [c])[..|e|] == e && (a + [c])[..|a|] == a;
        assert NoneTooLong(e + [c], rsizeMax) <==> NoneTooLong(e, rsizeMax) && !TooLong(c, rsizeMax) by {
          NoneTooLongSnoc(e, c, rsizeMax);
        }
      } else {
        assert Entered(calls, rsizeMax) == e && Accepted(calls, rsizeMax) == a;
      }
      if !Accepts(Build(front, rsizeMax), c, rsizeMax) {
        assert Accepted(calls, rsizeMax) == a;
      }
    }
  }

  lemma NoneTooLongSnoc(e: seq<Call>, c: Call, rsizeMax: nat)
    ensures NoneTooLong(e + [c], rsizeMax) <==> NoneTooLong(e, rsizeMax) && !TooLong(c, rsizeMax)
  {
    hide TooLong;
    assert (e + [c])[|e|] == c;
    assert forall k :: 0 <= k < |e| ==> (e + [c])[k] == e[k];
  }

  /** The file has the objects of the calls that succeeded, and no others, if and only if none was too long. */
  lemma HalfAdded(calls: seq<Call>, rsizeMax: nat)
    ensures Consistent(Build(calls, rsizeMax))
    ensures AllObjects(Build(calls, rsizeMax)) == ObjectsOf(Accepted(calls, rsizeMax), rsizeMax)
            <==> NoneTooLong(Entered(calls, rsizeMax), rsizeMax)
  {
    hide AllObjects, Build, Accepted, Entered, ObjectsOf, NoneTooLong, Consistent;
    BuildHolds(calls, rsizeMax);
    AcceptedObjects(calls, rsizeMax);
  }

  lemma EmptyFile()
    ensures Consistent(EMPTY) && AllObjects(EMPTY) == []
  {
  }

  lemma EnteredData(f: File, c: Call)
    requires Enters(f, c) && c.AddObject?
    ensures c.data.Some?
  {
  }

  /**
   For any sequence of calls on a fresh BinFile: writing it and reading the bytes into a fresh BinFile
   gives the same file if and only if ReadsBack, and that file has the attributes and objects that were entered.
   */
  lemma WriteThenRead(calls: seq<Call>, rsizeMax: nat)
    ensures var f := Build(calls, rsizeMax);
            && Consistent(f) && (Parse(Written(f), EMPTY) == Success(f) <==> ReadsBack(f))
            && f.attrs == AttrsOf(Entered(calls, rsizeMax))
            && AllObjects(f) == ObjectsOf(Entered(calls, rsizeMax), rsizeMax)
  {
    hide Parse, ReadsBack, Build, Entered, AttrsOf, ObjectsOf, AllObjects, Written;
    BuildHolds(calls, rsizeMax);
    RoundTrip(Build(calls, rsizeMax));
  }

  /** An attribute that Read takes without complaint and does not give back. */
  lemma LostValue(rsizeMax: nat)
    ensures var f := Build([Call.AddAttr("a", "1=2")], rsizeMax);
            && f.attrs == [Attr("a", "1=2")]
            && Parse(Written(f), EMPTY) == Success(f.(attrs := [Attr("a", "1")]))
  {
    hide Parse, Written, Build, Consistent, CutValues;
    BuiltEquals(rsizeMax);
    var f := File([Attr("a", "1=2")], [], "", {});
    BuildHolds([Call.AddAttr("a", "1=2")], rsizeMax);
    SmallFiles();
    EqualsInValues(f);
    CutExample();
  }

  lemma CutExample()
    ensures CutValues([Attr("a", "1=2")]) == [Attr("a", "1")]
  {
    assert Index("1=2", '=') == 1 && "1=2"[..1] == "1";
  }

  lemma BuiltEquals(rsizeMax: nat)
    ensures Build([Call.AddAttr("a", "1=2")], rsizeMax) == File([Attr("a", "1=2")], [], "", {})
  {
    hide Build;
    BuildOne(Call.AddAttr("a", "1=2"), rsizeMax);
    assert [] + [Attr("a", "1=2")] == [Attr("a", "1=2")];
  }

  lemma OneDigit()
    ensures forall n :: 0 <= n < 10 ==> |ToString(n)| == 1
  {
  }

  const W := Binary("w", 0, 2)
  const L := Binary("Length", 2, 1)

  /** An object whose name makes Read drop it. */
  lemma LostObject(rsizeMax: nat)
    requires rsizeMax >= 2
    ensures var f := Build([Call.AddObject("w", Some("xy")), Call.AddObject("Length", Some("z"))], rsizeMax);
            && f.binaries == [W, L] && f.buffer == "xyz"
            && Parse(Written(f), EMPTY) == Success(File([], [W], "xy", {"w"}))
  {
    hide Parse, Written, Build, Consistent, AllObjects;
    BuiltLength(rsizeMax);
    BuildHolds([Call.AddObject("w", Some("xy")), Call.AddObject("Length", Some("z"))], rsizeMax);
    ReadLengthExample();
  }

  lemma ReadLengthExample()
    requires Consistent(File([], [W, L], "xyz", {"w", "Length"}))
    ensures Parse(Written(File([], [W, L], "xyz", {"w", "Length"})), EMPTY) == Success(File([], [W], "xy", {"w"}))
  {
    hide Parse, Written, Consistent, BinaryNames, CleanNames, AllObjects, Inside;
    var g := File([], [W, L], "xyz", {"w", "Length"});
    SmallFiles();
    CleanExample();
    ObjectCalledLength(g, 1);
    assert g.binaries[..1] == [W] && g.binaries[2..] == [] && "xyz"[..2] == "xy";
    NamesExample();
  }

  lemma CleanExample()
    ensures CleanNames([W, L]) && forall i :: 0 <= i < |[W, L]| ==> [W, L][i].name != COUNT
  {
    assert L.name[0] == 'L' && COUNT[0] == 'C';
  }

  lemma NamesExample()
    ensures BinaryNames([W]) + BinaryNames([]) == {"w"}
  {
    BinaryNamesSnoc([], W);
    assert [] + [W] == [W];
  }

  lemma BuiltLength(rsizeMax: nat)
    requires rsizeMax >= 2
    ensures Build([Call.AddObject("w", Some("xy")), Call.AddObject("Length", Some("z"))], rsizeMax)
         == File([], [W, L], "xyz", {"w", "Length"})
  {
    hide Build, CheckNameValid;
    BuildTwo(Call.AddObject("w", Some("xy")), Call.AddObject("Length", Some("z")), rsizeMax);
    assert CheckNameValid("w") && CheckNameValid("Length") by {
      ValidExamples();
    }
    assert Apply(EMPTY, Call.AddObject("w", Some("xy")), rsizeMax) == File([], [W], "xy", {"w"}) by {
      assert [] + [W] == [W] && "" + "xy" == "xy" && {} + {"w"} == {"w"};
    }
    assert [W] + [L] == [W, L] && "xy" + "z" == "xyz" && {"w"} + {"Length"} == {"w", "Length"};
    assert "Length" != "w" by {
      assert |"Length"| != |"w"|;
    }
  }

  lemma ValidExamples()
    ensures CheckNameValid("w") && CheckNameValid("Length")
  {
  }

  lemma BuildOne(c: Call, rsizeMax: nat)
    ensures Build([c], rsizeMax) == Apply(EMPTY, c, rsizeMax)
  {
    assert [c][..0] == [];
  }

  lemma BuildTwo(c: Call, d: Call, rsizeMax: nat)
    ensures Build([c, d], rsizeMax) == Apply(Apply(EMPTY, c, rsizeMax), d, rsizeMax)
  {
    BuildOne(c, rsizeMax);
    assert [c, d][..1] == [c];
  }

  /** The examples are far below the size limit. */
  lemma SmallFiles()
    ensures |Written(File([Attr("a", "1=2")], [], "", {}))| <= MAX_FILE_SIZE
    ensures |Written(File([], [W, L], "xyz", {"w", "Length"}))| <= MAX_FILE_SIZE
  {
    hide ToString;
    assert |ToString(0)| == |ToString(1)| == |ToString(2)| == |ToString(3)| == 1 by {
      OneDigit();
    }
    assert [Attr("a", "1=2")][1..] == [];
    assert BinaryLines([W, L]) == Line(ATTR_OBJECT_PREFIX + "w", Position(W)) + BinaryLines([L]) by {
      assert [W, L][1..] == [L];
    }
    assert [L][1..] == [];
  }

  // -------------------------------------------------------------- the class

  lemma NamesSnoc(attrs: seq<Attr>, a: Attr)
    ensures Names(attrs + [a]) == Names(attrs) + {a.name}
  {
    var all := attrs + [a];
    forall i | 0 <= i < |attrs|
      ensures attrs[i].name in Names(all)
    {
      assert all[i] == attrs[i];
    }
    assert all[|attrs|] == a;
  }

  lemma BinaryNamesSnoc(binaries: seq<Binary>, b: Binary)
    ensures BinaryNames(binaries + [b]) == BinaryNames(binaries) + {b.name}
  {
    var all := binaries + [b];
    forall i | 0 <= i < |binaries|
      ensures binaries[i].name in BinaryNames(all)
    {
      assert all[i] == binaries[i];
    }
    assert all[|binaries|] == b;
  }

  class BinFile {
    var attrNames: set<string>
    var attrs: seq<Attr>
    var binaryNames: set<string>
    var binaries: seq<Binary>
    var binariesBuffer: string

    function View(): File
      reads this
    {
      File(attrs, binaries, binariesBuffer, binaryNames)
    }

    /** The set of attribute names holds the names of the list. */
    predicate Valid()
      reads this
    {
      attrNames == Names(attrs)
    }

    constructor ()
      ensures Valid() && View() == EMPTY
    {
      attrNames, attrs, binaryNames, binaries, binariesBuffer := {}, [], {}, [], "";
    }

    /** The limit of memcpy_s plays no part. */
    method AddAttr(name: string, value: string) returns (ok: bool)
      requires Valid()
      modifies this
      ensures Valid() && ok == Accepts(old(View()), Call.AddAttr(name, value), 0)
      ensures ok == (&& 0 < |name| <= 256 && name !in Names(old(attrs))
                     && forall c :: c in name ==>
                          c !in {'\n', '\U{000C}', '\r', '\U{000B}', '\t', '\U{0008}', '\U{007F}', ' ', '$'})
      ensures View() == Apply(old(View()), Call.AddAttr(name, value), 0)
    {
      NameRules(name);
      if !CheckNameValid(name) || name in attrNames {
        return false;
      }
      NamesSnoc(attrs, Attr(name, value));
      attrNames := attrNames + {name};
      attrs := attrs + [Attr(name, value)];
      ok := true;
    }

    /**
     The bytes are copied in pieces of at most one gigabyte into the grown buffer. When memcpy_s, which takes
     destinations of at most rsizeMax bytes, refuses, the object stays.
     */
    method AddObject(name: string, binaryBuffer: Option<string>, rsizeMax: nat) returns (ok: bool)
      requires Valid()
      modifies this
      ensures Valid() && ok == Accepts(old(View()), Call.AddObject(name, binaryBuffer), rsizeMax)
      ensures |old(binariesBuffer)| <= 10737418240 ==> |binariesBuffer| <= 10737418240
      ensures View() == Apply(old(View()), Call.AddObject(name, binaryBuffer), rsizeMax)
    {
      hide CheckNameValid, Names, BinaryNames, ZeroBuffer;
      if !CheckNameValid(name) || binaryBuffer.None? {
        return false;
      }
      var binaryLen := |binaryBuffer.value|;
      var needLen := |binariesBuffer| + binaryLen;
      if binaryLen > MAX_FILE_SIZE || needLen > MAX_FILE_SIZE || name in binaryNames {
        return false;
      }
      var currentLen := |binariesBuffer|;
      binaryNames := binaryNames + {name};
      binaries := binaries + [Binary(name, currentLen, binaryLen)];
      binariesBuffer := Resized(binariesBuffer, needLen);
      assert binariesBuffer == old(binariesBuffer) + ZeroBuffer(binaryLen) by {
        Grown(old(binariesBuffer), needLen);
      }
      ok := CopyInPieces(currentLen, binaryBuffer.value, rsizeMax);
    }

    /** The loop of copies. Only the first can be refused, since every later one has less room. */
    method CopyInPieces(currentLen: nat, data: string, rsizeMax: nat) returns (ok: bool)
      requires |binariesBuffer| == currentLen + |data|
      modifies this`binariesBuffer
      ensures ok == (|data| <= rsizeMax)
      ensures binariesBuffer == if ok then old(binariesBuffer)[..currentLen] + data else old(binariesBuffer)
    {
      ghost var start := binariesBuffer;
      var offset: nat, copyLen: nat := 0, |data|;
      while copyLen > 0
        invariant offset + copyLen == |data| && |binariesBuffer| == |start|
        invariant offset > 0 ==> |data| <= rsizeMax
        invariant offset == 0 ==> binariesBuffer == start
        invariant binariesBuffer[..currentLen + offset] == start[..currentLen] + data[..offset]
      {
        var curCopySize := if copyLen > MAX_SINGLE_MEMCPY_SIZE then MAX_SINGLE_MEMCPY_SIZE else copyLen;
        var at, piece := currentLen + offset, data[offset..offset + curCopySize];
        var room := |binariesBuffer| - currentLen - offset;
        if room > rsizeMax || curCopySize > room {
          return false;
        }
        ghost var was := binariesBuffer;
        binariesBuffer := binariesBuffer[..at] + piece + binariesBuffer[at + curCopySize..];
        assert binariesBuffer[..at + curCopySize] == was[..at] + piece;
        assert data[..offset + curCopySize] == data[..offset] + piece;
        offset := offset + curCopySize;
        copyLen := copyLen - curCopySize;
      }
      assert binariesBuffer == binariesBuffer[..currentLen + offset];
      ok := true;
    }

    /** WriteImpl, as the bytes that arrive in the file when every write succeeds. */
    method WriteImpl() returns (bytes: string)
      ensures bytes == Written(View())
      ensures |binaries| <= ULLONG_MAX && |binariesBuffer| <= ULLONG_MAX ==>
                SaysInFront(bytes, |binaries|, |binariesBuffer|)
      ensures forall k :: 0 <= k < |attrs| ==> HasLine(bytes, attrs[k].name + "=" + attrs[k].value + "\n")
      ensures forall k :: 0 <= k < |binaries| ==> SaysBinary(bytes, binaries[k])
      ensures HasLine(bytes, "$End=1\n" + binariesBuffer)
      ensures binariesBuffer == bytes[|bytes| - |binariesBuffer|..]
    {
      hide ToString, Line, AttrLines, BinaryLines;
      var count, length := ToString(|binaries|), ToString(|binariesBuffer|);
      bytes := Line(ATTR_VERSION, VERSION) + Line(ATTR_OBJECT_COUNT, count) + Line(ATTR_OBJECT_LENGTH, length);
      var attrLines := WriteAttrs(attrs);
      bytes := bytes + attrLines;
      var binaryLines := WriteBinaries(binaries);
      bytes := bytes + binaryLines + Line(ATTR_END, "1");
      if |binariesBuffer| > 0 {
        bytes := bytes + binariesBuffer;
      }
      Regroup(Line(ATTR_VERSION, VERSION), Line(ATTR_OBJECT_COUNT, count), Line(ATTR_OBJECT_LENGTH, length),
              attrLines, binaryLines, Line(ATTR_END, "1"), binariesBuffer);
      WrittenSays(View());
    }

    /** ParseSystemAttr: its status, and what it leaves in either case. */
    method ParseSystemAttr(attrName: string, value: string) returns (ok: bool)
      requires Valid()
      modifies this`binaryNames, this`binaries
      ensures Valid() && View() == AfterSystemAttr(attrName, value, old(View()))
      ensures ok == SystemAttrOk(attrName, value, old(View()))
    {
      hide Names, Fields, Strtoull;
      ok := true;
      if ATTR_OBJECT_PREFIX <= attrName {
        var objName := attrName[|ATTR_OBJECT_PREFIX|..];
        var fields := StrSplit(value, ',');
        if |fields| != 2 || objName in binaryNames {
          return false;
        }
        binaryNames := binaryNames + {objName};
        var offset, length := Strtoull(fields[0]), Strtoull(fields[1]);
        if offset > |binariesBuffer| || length > |binariesBuffer| || offset + length > |binariesBuffer| {
          return false;
        }
        binaries := binaries + [Binary(objName, offset, length)];
      }
    }

    /** The body of the header loop. Its checks, of which ParseSystemAttr's status is one, only log. */
    method ParseOneLine(line: string) returns (r: Outcome)
      requires Valid()
      modifies this
      ensures match ParseLine(line, old(View()))
              case Stuck => r.Broken?
              case End => r.AtEnd? && Valid() && View() == old(View())
              case Next(f) => r.GoOn? && Valid() && View() == f
    {
      hide Names, Fields, Strtoull, Resized, AfterSystemAttr, SystemAttrOk;
      r := GoOn;
      var fields := StrSplit(line, '=');
      if |fields| < 2 {
        return Broken;
      }
      var attrName, attrValue := fields[0], fields[1];
      if attrName == ATTR_END {
        r := AtEnd;
      } else if attrName == ATTR_OBJECT_COUNT {
      } else if attrName == ATTR_OBJECT_LENGTH {
        var totalBinarySize := Strtoull(attrValue);
        if totalBinarySize > MAX_VECTOR_SIZE {
          return Broken;
        }
        binariesBuffer := Resized(binariesBuffer, totalBinarySize);
      } else if attrName == "" {
        r := Broken;
      } else if attrName[0] == '$' {
        var _ := ParseSystemAttr(attrName, attrValue);
      } else {
        NamesSnoc(attrs, Attr(attrName, attrValue));
        attrNames := attrNames + {attrName};
        attrs := attrs + [Attr(attrName, attrValue)];
      }
    }

    /** ParseBinFile, on the bytes of the file; no status when it has no defined behaviour. */
    method ParseBinFile(bytes: string) returns (status: Option<bool>)
      requires Valid()
      modifies this
      ensures match ParseAll(bytes, old(View()))
              case Undefined => status == None
              case Failure(f) => status == Some(false) && Valid() && View() == f
              case Success(f) => status == Some(true) && Valid() && View() == f
    {
      hide ParseLine, ParseHead, Names;
      ghost var into := View();
      var rest, matchAttrEnd, terminated := bytes, false, false;
      while rest != []
        invariant Valid() && !matchAttrEnd
        invariant ParseHead(bytes, into) == ParseHead(rest, View())
        decreases |rest|
      {
        HeadStep(rest, View());
        var k := Index(rest, '\n');
        terminated := k < |rest|;
        var r := ParseOneLine(rest[..k]);
        if r.Broken? {
          return None;
        }
        rest := if terminated then rest[k + 1..] else [];
        if r.AtEnd? {
          matchAttrEnd := true;
          break;
        }
      }
      HeadDone(rest, View());
      assert ParseHead(bytes, into) == if matchAttrEnd && terminated then Found(View(), rest) else NotFound(View());
      if !matchAttrEnd || !terminated || |binariesBuffer| > |rest| {
        return Some(false);
      }
      binariesBuffer := rest[..|binariesBuffer|];
      status := Some(true);
    }

    method GetAllObjects() returns (objects: seq<(string, string)>)
      requires Inside(binaries, |binariesBuffer|)
      ensures objects == AllObjects(View())
    {
      objects := [];
      for i := 0 to |binaries|
        invariant objects == AllObjects(View())[..i]
      {
        var it := binaries[i];
        objects := objects + [(it.name, binariesBuffer[it.offset..it.offset + it.length])];
      }
    }

    /** Read, once the file's bytes are at hand. */
    method Read(bytes: string) returns (status: Option<bool>)
      requires Valid()
      modifies this
      ensures |bytes| > 10737418240 ==> status == Some(false) && View() == old(View())
      ensures match Parse(bytes, old(View()))
              case Undefined => status == None
              case Failure(f) => status == Some(false) && Valid() && View() == f
              case Success(f) => status == Some(true) && Valid() && View() == f
    {
      hide ParseAll, Names;
      status := Some(false);
      if |bytes| <= MAX_FILE_SIZE {
        status := ParseBinFile(bytes);
      }
    }
  }

  /** How the loop goes on behind one line of the header. */
  datatype Outcome = GoOn | AtEnd | Broken

  lemma HeadStep(rest: string, f: File)
    requires rest != []
    ensures var k := Index(rest, '\n');
            ParseHead(rest, f)
            == match ParseLine(rest[..k], f)
               case Stuck => Lost
               case End => if k == |rest| then NotFound(f) else Found(f, rest[k + 1..])
               case Next(g) => ParseHead(if k == |rest| then [] else rest[k + 1..], g)
  {
    hide ParseLine;
  }

  lemma HeadDone(rest: string, f: File)
    ensures rest == [] ==> ParseHead(rest, f) == NotFound(f)
  {
  }

  lemma Regroup(a: string, b: string, c: string, d: string, e: string, f: string, g: string)
    ensures a + b + c + d + e + f + g == a + (b + (c + (d + (e + (f + g)))))
    ensures g == "" ==> a + b + c + d + e + f == a + (b + (c + (d + (e + (f + g)))))
  {
    var x, y := a + b + c + d + e + f + g, a + (b + (c + (d + (e + (f + g)))));
    assert x == y;
  }

  method WriteAttrs(attrs: seq<Attr>) returns (text: string)
    ensures text == AttrLines(attrs)
  {
    hide Line;
    text := "";
    assert attrs[0..] == attrs;
    for i := 0 to |attrs|
      invariant text + AttrLines(attrs[i..]) == AttrLines(attrs)
    {
      assert attrs[i..][1..] == attrs[i + 1..];
      text := text + Line(attrs[i].name, attrs[i].value);
    }
  }

  method WriteBinaries(binaries: seq<Binary>) returns (text: string)
    ensures text == BinaryLines(binaries)
  {
    hide Line, Position;
    text := "";
    assert binaries[0..] == binaries;
    for i := 0 to |binaries|
      invariant text + BinaryLines(binaries[i..]) == BinaryLines(binaries)
    {
      assert binaries[i..][1..] == binaries[i + 1..];
      text := text + Line(ATTR_OBJECT_PREFIX + binaries[i].name, Position(binaries[i]));
    }
  }
}
