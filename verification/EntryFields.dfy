/**
  Decoders for the fields of one directory entry: file size, the displayed
  name and extension (space padding removed, as C strings), and the packed
  modification date and time.
 */
module EntryFields {
  import opened Bytes
  import opened Layout

  const SPACE: byte := 0x20
  const DOT: byte := 0x2E
  const NUL: byte := 0x00

  /** `GetSizeofFile`: the four size bytes read as a little-endian number. */
  function GetSizeofFile(e: DirectoryEntry): (size: nat)
    requires e.WellFormed()
    ensures size == LittleEndianSum(e.size)
    ensures size < 0x1_0000_0000
  {
    ReadNumberIsLittleEndian(e.size);
    ReadNumber(e.size)
  }

  /**
    `GetFileModifiedDate`: day in bits 0-4, month in bits 5-8, year since
    1980 in bits 9-15.  Masking and shifting are written as division and
    remainder by the corresponding powers of two.
   */
  function GetFileModifiedDate(e: DirectoryEntry): (d: Date)
    requires e.WellFormed()
    ensures d.day <= 31 && d.month <= 15 && d.year <= 127
    ensures d.day + 32 * d.month + 512 * d.year == ReadNumber(e.modifiedDate)
  {
    var date := ReadNumber(e.modifiedDate);
    ReadNumber2(e.modifiedDate);
    DateWordSplit(date);
    Date(date % 32, (date / 32) % 16, (date / 512) % 128)
  }

  lemma DateWordSplit(w: nat)
    requires w < 0x1_0000
    ensures w / 512 < 128
    ensures w % 32 + 32 * ((w / 32) % 16) + 512 * ((w / 512) % 128) == w
  {
    var s, a := w % 32, w / 32;
    var m, y := a % 16, a / 16;
    assert w == s + 32 * m + 512 * y;
    DivModUnique(w, 512, y, s + 32 * m);
  }

  /**
    `GetFileModifiedTime`: seconds (in two-second units) in bits 0-4, minutes
    through `MINUTES_MASK`, which is `0x1F << 5` and so keeps bits 5-9 only,
    and hours from bits 11-15.  Bit 10, the top bit of the six-bit minute
    field of the FAT format, is dropped.
   */
  function GetFileModifiedTime(e: DirectoryEntry): (t: Time)
    requires e.WellFormed()
    ensures t.seconds <= 31 && t.minutes <= 31 && t.hours <= 31
    ensures t.seconds + 32 * t.minutes + 2048 * t.hours + 1024 * ((ReadNumber(e.modifiedTime) / 1024) % 2)
            == ReadNumber(e.modifiedTime)
  {
    var time := ReadNumber(e.modifiedTime);
    ReadNumber2(e.modifiedTime);
    TimeWordSplit(time);
    Time(time % 32, (time / 32) % 32, (time / 2048) % 128)
  }

  lemma TimeWordSplit(w: nat)
    requires w < 0x1_0000
    ensures w / 2048 < 32
    ensures w % 32 + 32 * ((w / 32) % 32) + 2048 * (w / 2048) + 1024 * ((w / 1024) % 2) == w
  {
    var s, a := w % 32, w / 32;
    var m, b := a % 32, a / 32;
    var bit, h := b % 2, b / 2;
    assert w == s + 32 * m + 1024 * bit + 2048 * h;
    DivModUnique(w, 1024, b, s + 32 * m);
    DivModUnique(w, 2048, h, s + 32 * m + 1024 * bit);
  }

  /** The time word is rebuilt from the decoded fields exactly when its bit 10 is clear. */
  lemma TimeRebuildsWordIffBit10Clear(e: DirectoryEntry)
    requires e.WellFormed()
    ensures var t := GetFileModifiedTime(e);
      (t.seconds + 32 * t.minutes + 2048 * t.hours == ReadNumber(e.modifiedTime))
      <==> (ReadNumber(e.modifiedTime) / 1024) % 2 == 0
  {
  }

  /** The bytes of a date word with the given fields. */
  function EncodeDate(d: Date): (w: seq<byte>)
    requires d.day <= 31 && d.month <= 15 && d.year <= 127
    ensures |w| == 2
  {
    var word := d.day + 32 * d.month + 512 * d.year;
    [word % 256, word / 256]
  }

  /** Decoding an encoded date gives the date back. */
  lemma DateRoundTrip(e: DirectoryEntry, d: Date)
    requires e.WellFormed()
    requires d.day <= 31 && d.month <= 15 && d.year <= 127
    requires e.modifiedDate == EncodeDate(d)
    ensures GetFileModifiedDate(e) == d
  {
    var word := d.day + 32 * d.month + 512 * d.year;
    ReadNumber2(e.modifiedDate);
    assert ReadNumber(e.modifiedDate) == word;
    DivModUnique(word, 32, d.month + 16 * d.year, d.day);
    DivModUnique(d.month + 16 * d.year, 16, d.year, d.month);
    DivModUnique(word, 512, d.year, d.day + 32 * d.month);
  }

  /**
    A space-padded field with its padding removed, as the trim loops do it:
    trailing spaces go, but the first byte always stays.
   */
  function TrimPadding(field: seq<byte>): (r: seq<byte>)
    requires |field| >= 1
    ensures 1 <= |r| <= |field| && r == field[..|r|]
    ensures |r| == 1 || r[|r| - 1] != SPACE
  {
    if |field| > 1 && field[|field| - 1] == SPACE then TrimPadding(field[..|field| - 1]) else field
  }

  /** Everything trimming removes is space padding. */
  lemma {:induction false} TrimRemovesOnlySpaces(field: seq<byte>)
    requires |field| >= 1
    ensures forall i :: |TrimPadding(field)| <= i < |field| ==> field[i] == SPACE
  {
    if |field| > 1 && field[|field| - 1] == SPACE {
      var shorter := field[..|field| - 1];
      TrimRemovesOnlySpaces(shorter);
      assert forall i :: |TrimPadding(shorter)| <= i < |shorter| ==> field[i] == shorter[i];
    }
  }

  /** The C string a NUL-terminated buffer holds: everything before the first NUL. */
  function CString(buffer: seq<byte>): (r: seq<byte>)
    ensures |r| <= |buffer| && r == buffer[..|r|]
    ensures NUL !in r
    ensures |r| < |buffer| ==> buffer[|r|] == NUL
  {
    if |buffer| == 0 || buffer[0] == NUL then [] else [buffer[0]] + CString(buffer[1..])
  }

  /** A buffer's C string ends at or before any NUL in it. */
  lemma {:induction false} CStringStopsAtNul(buffer: seq<byte>, k: nat)
    requires k < |buffer| && buffer[k] == NUL
    ensures CString(buffer) == CString(buffer[..k])
  {
    if k > 0 && buffer[0] != NUL {
      CStringStopsAtNul(buffer[1..], k - 1);
      assert buffer[..k][1..] == buffer[1..][..k - 1];
    }
  }

  /** One more space of padding does not change the trimmed field. */
  lemma TrimExtraSpace(field: seq<byte>)
    requires |field| >= 1
    ensures TrimPadding(field + [SPACE]) == TrimPadding(field)
  {
    assert (field + [SPACE])[..|field|] == field;
  }

  /**
    The trim loop of `GetName` and `GetFileType`: `a` holds a field followed
    by one extra space; from the last position down to position 1, spaces
    are overwritten with NUL until a non-space is met.  The C string left in
    `a` is the trimmed field.
   */
  method TrimLoop(a: array<byte>)
    requires a.Length >= 2 && a[a.Length - 1] == SPACE
    modifies a
    ensures CString(a[..]) == CString(TrimPadding(old(a[..a.Length - 1])))
  {
    ghost var field := a[..a.Length - 1];
    ghost var padded := a[..];
    assert padded == field + [SPACE];
    TrimExtraSpace(field);
    assert padded[..a.Length] == padded;
    var i := a.Length - 1;
    while i > 0 && a[i] == SPACE
      invariant 0 <= i < a.Length
      invariant a[..i + 1] == padded[..i + 1]
      invariant forall j :: i < j < a.Length ==> a[j] == NUL
      invariant TrimPadding(padded[..i + 1]) == TrimPadding(field)
    {
      a[i] := NUL;
      TrimStep(padded, i);
      i := i - 1;
    }
    TrimFinish(a[..], padded, field, i);
  }

  /** Once the loop meets a non-space (or position 0), the C string left is the trimmed field. */
  lemma TrimFinish(s: seq<byte>, padded: seq<byte>, field: seq<byte>, i: nat)
    requires |field| >= 1 && |s| == |padded| && padded == field + [SPACE] && i < |s|
    requires s[..i + 1] == padded[..i + 1]
    requires forall j :: i < j < |s| ==> s[j] == NUL
    requires TrimPadding(padded[..i + 1]) == TrimPadding(field)
    requires i == 0 || s[i] != SPACE
    ensures CString(s) == CString(TrimPadding(field))
  {
    assert s[i] == padded[i] by {
      assert s[..i + 1][i] == s[i] && padded[..i + 1][i] == padded[i];
    }
    TrimDone(padded, i);
    assert i + 1 < |s| && s[i + 1] == NUL;
    CStringStopsAtNul(s, i + 1);
  }

  lemma TrimStep(padded: seq<byte>, i: nat)
    requires 0 < i < |padded| && padded[i] == SPACE
    ensures TrimPadding(padded[..i + 1]) == TrimPadding(padded[..i])
  {
    assert padded[..i + 1][..i] == padded[..i];
  }

  lemma TrimDone(padded: seq<byte>, i: nat)
    requires i < |padded| && (i == 0 || padded[i] != SPACE)
    ensures TrimPadding(padded[..i + 1]) == padded[..i + 1]
  {
  }

  /**
    `GetFileType`: the three-byte extension, space padding removed, as the C
    string the caller's four-byte buffer receives.
   */
  method GetFileType(e: DirectoryEntry) returns (extension: seq<byte>)
    requires e.WellFormed()
    ensures extension == CString(TrimPadding(e.extension))
    ensures |extension| <= 3
  {
    var buffer := new byte[4];
    buffer[0], buffer[1], buffer[2], buffer[3] := e.extension[0], e.extension[1], e.extension[2], SPACE;
    assert buffer[..3] == e.extension;
    TrimLoop(buffer);
    extension := CString(buffer[..]);
  }

  /**
    `GetName`: the eight-byte name with its padding removed, followed — unless
    the directory attribute bit 0x10 is set — by "." and the trimmed extension.
    The result has at most 12 characters, so it and its NUL fit in the
    14-byte buffer the header documents.
   */
  method GetName(e: DirectoryEntry) returns (fullname: seq<byte>)
    requires e.WellFormed()
    ensures fullname == CString(TrimPadding(e.name))
              + (if e.IsDirectory() then [] else [DOT] + CString(TrimPadding(e.extension)))
    ensures |fullname| + 1 <= 14
  {
    var name := GetBaseName(e);
    var extension := GetFileType(e);
    var suffix := if e.IsDirectory() then [] else [DOT] + extension;
    assert |suffix| <= 4;
    fullname := name + suffix;
  }

  /** The first half of `GetName`: the eight-byte name copied with one space after it, then trimmed. */
  method GetBaseName(e: DirectoryEntry) returns (name: seq<byte>)
    requires e.WellFormed()
    ensures name == CString(TrimPadding(e.name))
    ensures |name| <= 8
  {
    var buffer := new byte[9](j => if j < 8 then e.name[j] else SPACE);
    assert buffer[..8] == e.name && buffer[8] == SPACE;
    TrimLoop(buffer);
    name := CString(buffer[..]);
  }
}
