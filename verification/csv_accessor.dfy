/** `CSVAccessor` of `src/modules/csv/lib.rs`: guess the file's encoding from
    its first bytes, then collect the records the csv reader yields, failing
    on the first bad one. The transcoder and the quote-aware tokenizer are
    libraries; `records` stands for both together. */
module CsvAccessor {
  import opened Wrappers
  import opened Errors
  import opened Numbers
  import opened Common
  import opened Utf8

  /** The decision of `detect_encoding`: `Utf8` is its `None` (read the file
      as UTF-8), `ShiftJis` its `Some(SHIFT_JIS)`. */
  datatype Encoding = Utf8 | ShiftJis

  /** What one `read` into the three-byte buffer returns from the start of an
      open file: up to three bytes. */
  function FirstBytes(file: seq<byte>): (p: seq<byte>)
    ensures |p| <= 3
    ensures |p| == (if |file| < 3 then |file| else 3)
    ensures p == file[..|p|]
  {
    if |file| < 3 then file else file[..3]
  }

  /** `detect_encoding` as written: UTF-8 exactly when the read succeeded and
      the bytes read are valid UTF-8 by themselves. `read` is the outcome of
      the read: `None` when it failed. */
  function DetectEncoding(read: Option<seq<byte>>): Encoding {
    if read.Some? && ValidUtf8(read.value) then Utf8 else ShiftJis
  }

  /** `detect_encoding` as its comment means it: UTF-8 when the bytes read
      can begin a UTF-8 file, that is, whole characters followed by at most
      one character the three-byte window cut short. */
  function DetectEncodingFixed(read: Option<seq<byte>>): Encoding {
    if read.Some? && ValidPartial(read.value) then Utf8 else ShiftJis
  }

  /** An empty file is judged UTF-8. */
  lemma DetectEmptyFile()
    ensures DetectEncoding(Some(FirstBytes([]))) == Utf8
    ensures DetectEncodingFixed(Some(FirstBytes([]))) == Utf8
  {
  }

  /** A failed read is judged Shift_JIS. */
  lemma DetectReadFailure()
    ensures DetectEncoding(None) == ShiftJis
    ensures DetectEncodingFixed(None) == ShiftJis
  {
  }

  /** A file whose first bytes are ASCII is judged UTF-8. */
  lemma DetectAscii(file: seq<byte>)
    requires forall i :: 0 <= i < |FirstBytes(file)| ==> FirstBytes(file)[i] < 0x80
    ensures DetectEncoding(Some(FirstBytes(file))) == Utf8
    ensures DetectEncodingFixed(Some(FirstBytes(file))) == Utf8
  {
    AsciiValid(FirstBytes(file));
    ValidIsPartial(FirstBytes(file));
  }

  /** Only the first three bytes count: what follows never changes the
      decision. */
  lemma DetectIgnoresLaterBytes(head: seq<byte>, tail1: seq<byte>, tail2: seq<byte>)
    requires |head| == 3
    ensures FirstBytes(head + tail1) == FirstBytes(head + tail2) == head
  {
    assert (head + tail1)[..3] == head;
    assert (head + tail2)[..3] == head;
  }

  /** A byte that cannot start a UTF-8 character (as in most Shift_JIS
      two-byte characters) at the front makes the file Shift_JIS. */
  lemma DetectStrayLeadByte(file: seq<byte>)
    requires file != [] && SeqLen(file[0]) == 0
    ensures DetectEncoding(Some(FirstBytes(file))) == ShiftJis
    ensures DetectEncodingFixed(Some(FirstBytes(file))) == ShiftJis
  {
    assert FirstBytes(file)[0] == file[0];
  }

  /** A UTF-8 text whose characters end exactly at the window's edge (or
      before the file ends) is judged UTF-8. */
  lemma DetectWholeCharacters(cs: seq<int>, rest: seq<byte>)
    requires forall i :: 0 <= i < |cs| ==> IsScalar(cs[i])
    requires |EncodeAll(cs)| == 3 || (|EncodeAll(cs)| < 3 && rest == [])
    ensures DetectEncoding(Some(FirstBytes(EncodeAll(cs) + rest))) == Utf8
  {
    var e := EncodeAll(cs);
    EncodeAllValid(cs);
    if |e| == 3 {
      assert (e + rest)[..3] == e;
    } else {
      assert e + rest == e;
    }
  }

  /** The defect: a valid UTF-8 file that starts with one or two ASCII bytes
      and then a character of three or more bytes (say "1,日付" in a Japanese
      CSV) has that character cut by the window, and is judged Shift_JIS. */
  lemma DetectSplitsCharacter(ascii: seq<byte>, c: int, rest: seq<byte>)
    requires 1 <= |ascii| <= 2 && forall i :: 0 <= i < |ascii| ==> ascii[i] < 0x80
    requires IsScalar(c) && c >= 0x800
    requires ValidUtf8(rest)
    ensures ValidUtf8(ascii + EncodeScalar(c) + rest)
    ensures DetectEncoding(Some(FirstBytes(ascii + EncodeScalar(c) + rest))) == ShiftJis
  {
    var e := EncodeScalar(c);
    var file := ascii + e + rest;
    PrependChar(e, rest);
    AsciiValid(ascii);
    ValidConcat(ascii, e + rest);
    assert file == ascii + (e + rest);
    var p := FirstBytes(file);
    assert p == ascii + e[..3 - |ascii|];
    assert SeqLen(e[0]) >= 3;
    if |ascii| == 1 {
      assert p[1..] == e[..2];
      assert !ValidUtf8(e[..2]);
    } else {
      assert p[1..][1..] == e[..1];
      assert !ValidUtf8(e[..1]);
      assert !ValidUtf8(p[1..]);
    }
    assert !ValidUtf8(p);
  }

  /** A concrete case of the defect: the bytes of "1,日" (31 2C E6 97 A5). */
  lemma DetectSplitsCharacterExample()
    ensures ValidUtf8([0x31, 0x2C, 0xE6, 0x97, 0xA5])
    ensures DetectEncoding(Some(FirstBytes([0x31, 0x2C, 0xE6, 0x97, 0xA5]))) == ShiftJis
    ensures DetectEncodingFixed(Some(FirstBytes([0x31, 0x2C, 0xE6, 0x97, 0xA5]))) == Utf8
  {
    assert EncodeScalar(0x65E5) == [0xE6, 0x97, 0xA5];
    assert [0x31, 0x2C, 0xE6, 0x97, 0xA5] == [0x31, 0x2C] + EncodeScalar(0x65E5) + [];
    DetectSplitsCharacter([0x31, 0x2C], 0x65E5, []);
    var p: seq<byte> := [0x31, 0x2C, 0xE6];
    assert FirstBytes([0x31, 0x2C, 0xE6, 0x97, 0xA5]) == p;
    assert p[..1] == [0x31];
    assert p[1..] == [0x2C, 0xE6];
    assert p[1..][..1] == [0x2C];
    assert p[1..][1..] == [0xE6];
    assert ValidPartial(p[1..][1..]);
    assert ValidPartial(p[1..]);
  }

  /** The corrected detection judges every valid UTF-8 file UTF-8. */
  lemma DetectFixedAcceptsUtf8(file: seq<byte>)
    requires ValidUtf8(file)
    ensures DetectEncodingFixed(Some(FirstBytes(file))) == Utf8
  {
    PrefixIsPartial(file, |FirstBytes(file)|);
  }

  /** The corrected detection only widens the written one: wherever the
      written one says UTF-8, so does the corrected one. */
  lemma DetectFixedExtends(read: Option<seq<byte>>)
    requires DetectEncoding(read) == Utf8
    ensures DetectEncodingFixed(read) == Utf8
  {
    ValidIsPartial(read.value);
  }

  lemma {:induction false} ValidConcat(a: seq<byte>, b: seq<byte>)
    requires ValidUtf8(a) && ValidUtf8(b)
    ensures ValidUtf8(a + b)
    decreases |a|
  {
    if a == [] {
      assert a + b == b;
    } else {
      var n := SeqLen(a[0]);
      ValidConcat(a[n..], b);
      assert (a + b)[0] == a[0];
      assert (a + b)[..n] == a[..n];
      assert (a + b)[n..] == a[n..] + b;
    }
  }

  /** The index of the first failed record, or |rs| when none failed. */
  function FirstErr<T>(rs: seq<Result<T, string>>): (k: nat)
    ensures k <= |rs|
    ensures forall i :: 0 <= i < k ==> rs[i].Ok?
    ensures k < |rs| ==> rs[k].Err?
  {
    if rs == [] || rs[0].Err? then 0 else 1 + FirstErr(rs[1..])
  }

  /** What `for record in records() { result.push(record?) }` returns: every
      record in order, or the first failure and nothing else. */
  function Collected<T>(rs: seq<Result<T, string>>): Result<seq<T>, ReportError> {
    var k := FirstErr(rs);
    if k < |rs| then Err(CsvError(rs[k].error))
    else Ok(seq(|rs|, i requires 0 <= i < |rs| => rs[i].value))
  }

  /** A failure after only successes is the outcome. */
  lemma CollectedFailsAt<T>(rs: seq<Result<T, string>>, i: nat)
    requires i < |rs| && rs[i].Err?
    requires forall j :: 0 <= j < i ==> rs[j].Ok?
    ensures Collected(rs) == Err(CsvError(rs[i].error))
  {
    assert FirstErr(rs) == i;
  }

  /** With no failure, the outcome is every value in order. */
  lemma CollectedValues<T>(rs: seq<Result<T, string>>, values: seq<T>)
    requires |values| == |rs|
    requires forall j :: 0 <= j < |rs| ==> rs[j].Ok? && values[j] == rs[j].value
    ensures Collected(rs) == Ok(values)
  {
    assert FirstErr(rs) == |rs|;
    assert values == seq(|rs|, j requires 0 <= j < |rs| => rs[j].value);
  }

  /** The collection loop, shared by every reader in the program. */
  method CollectRecords<T>(rs: seq<Result<T, string>>) returns (r: Result<seq<T>, ReportError>)
    ensures r == Collected(rs)
  {
    var result: seq<T> := [];
    var i := 0;
    while i < |rs|
      invariant 0 <= i <= |rs|
      invariant forall j :: 0 <= j < i ==> rs[j].Ok?
      invariant |result| == i
      invariant forall j :: 0 <= j < i ==> result[j] == rs[j].value
    {
      if rs[i].Err? {
        CollectedFailsAt(rs, i);
        return Err(CsvError(rs[i].error));
      }
      result := result + [rs[i].value];
      i := i + 1;
    }
    CollectedValues(rs, result);
    return Ok(result);
  }

  /** The records come back in file order exactly when none fails; a failure
      returns the first failure and no partial list. */
  lemma CollectedSpec<T>(rs: seq<Result<T, string>>)
    ensures Collected(rs).Ok? <==> forall i :: 0 <= i < |rs| ==> rs[i].Ok?
    ensures Collected(rs).Ok? ==>
      |Collected(rs).value| == |rs| && forall i :: 0 <= i < |rs| ==> Collected(rs).value[i] == rs[i].value
    ensures Collected(rs).Err? ==>
      exists k :: 0 <= k < |rs| && rs[k].Err? && Collected(rs).error == CsvError(rs[k].error) &&
        forall j :: 0 <= j < k ==> rs[j].Ok?
  {
    var k := FirstErr(rs);
    if k < |rs| {
      assert rs[k].Err?;
    }
  }

  /** `CSVAccessor::read`: decide the encoding from the first bytes, rewind,
      and collect the records read through it. `records(e, file)` is what
      the csv reader yields over the file transcoded as `e`. */
  method Read(file: seq<byte>, records: (Encoding, seq<byte>) -> seq<Result<StringRecord, string>>)
    returns (r: Result<seq<StringRecord>, ReportError>)
    ensures r == Collected(records(DetectEncoding(Some(FirstBytes(file))), file))
  {
    var encoding := DetectEncoding(Some(FirstBytes(file)));
    r := CollectRecords(records(encoding, file));
  }

  /** The same reader with the corrected detection, which reads every valid
      UTF-8 file as UTF-8. */
  method ReadFixed(file: seq<byte>, records: (Encoding, seq<byte>) -> seq<Result<StringRecord, string>>)
    returns (r: Result<seq<StringRecord>, ReportError>)
    ensures r == Collected(records(DetectEncodingFixed(Some(FirstBytes(file))), file))
    ensures ValidUtf8(file) ==> r == Collected(records(Utf8, file))
  {
    var encoding := DetectEncodingFixed(Some(FirstBytes(file)));
    if ValidUtf8(file) {
      DetectFixedAcceptsUtf8(file);
    }
    r := CollectRecords(records(encoding, file));
  }
}
