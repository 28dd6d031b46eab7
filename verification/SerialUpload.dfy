/** The serial upload of a file: marked bytes between arbitrary noise, saved in pieces of 128 bytes. */
module SerialUpload {
  import opened Words

  /** In front of every byte that counts. */
  const MARK: Byte := 0xDD
  /** With a mark behind it, the end of the file. */
  const END: Byte := 0xEE

  const NAME_LENGTH := 15
  const PIECE := 128

  /** What has come in, from the first mark on (or end byte, if these count). */
  function Skip(s: seq<Byte>, orEnd: bool): (t: seq<Byte>)
    ensures |t| <= |s|
    decreases |s|
  {
    if s != [] && s[0] != MARK && !(orEnd && s[0] == END) then Skip(s[1..], orEnd) else s
  }

  /** What has been received, and what has come in behind it; or the receiver is still waiting. */
  datatype Transfer = Waiting | Done(bytes: seq<Byte>, rest: seq<Byte>)

  /** The bytes of a file up to its end mark. */
  function Receive(s: seq<Byte>, got: seq<Byte>): Transfer
    decreases |s|
  {
    var t := Skip(s, true);
    if |t| < 2 then Waiting
    else if t[0] == MARK then Receive(t[2..], got + [t[1]])
    else if t[1] == MARK then Done(got, t[2..])
    else Receive(t[2..], got)
  }

  /** How many bytes of a file are to come. */
  function ToCome(s: seq<Byte>): nat
    decreases |s|
  {
    var t := Skip(s, true);
    if |t| < 2 then 0
    else if t[0] == MARK then 1 + ToCome(t[2..])
    else if t[1] == MARK then 0
    else ToCome(t[2..])
  }

  lemma {:induction false} AllComes(s: seq<Byte>, got: seq<Byte>)
    ensures Receive(s, got).Done? ==> |Receive(s, got).bytes| == |got| + ToCome(s)
    decreases |s|
  {
    var t := Skip(s, true);
    if |t| >= 2 {
      AllComes(t[2..], if t[0] == MARK then got + [t[1]] else got);
    }
  }

  function ToUpper(b: Byte): Byte {
    if 'a' as int <= b <= 'z' as int then b - 32 else b
  }

  /** The 26 letters from 0x61 on become those from 0x41 on; every other byte stays. */
  lemma UpperCaseIs(letter: nat, b: Byte)
    ensures letter < 26 ==> ToUpper(0x61 + letter) == 0x41 + letter
    ensures b < 0x61 || b > 0x7A ==> ToUpper(b) == b
    ensures ToUpper(ToUpper(b)) == ToUpper(b)
  {
  }

  /** `n` more bytes of the name. */
  function ReceiveName(s: seq<Byte>, n: nat, got: seq<Byte>): Transfer
    decreases n
  {
    if n == 0 then Done(got, s)
    else
      var t := Skip(s, false);
      if |t| < 2 then Waiting else ReceiveName(t[2..], n - 1, got + [ToUpper(t[1])])
  }

  datatype Upload = Incomplete | WrongStart | Saved(name: seq<Byte>, file: seq<Byte>)

  function UploadOf(s: seq<Byte>): Upload {
    var t := Skip(s, false);
    if |t| < 2 then Incomplete
    else if t[1] != MARK then WrongStart
    else
      var name := ReceiveName(t[2..], NAME_LENGTH, []);
      if name.Waiting? then Incomplete
      else
        var file := Receive(name.rest, []);
        if file.Waiting? then Incomplete else Saved(name.bytes, file.bytes)
  }

  /** How many bytes an upload stores in memory. */
  function StoredBytes(s: seq<Byte>): nat {
    var t := Skip(s, false);
    if |t| < 2 || t[1] != MARK then 0
    else
      var name := ReceiveName(t[2..], NAME_LENGTH, []);
      if name.Waiting? then 0 else ToCome(name.rest)
  }

  /** These are the bytes of the file. */
  lemma StoresTheFile(s: seq<Byte>)
    requires UploadOf(s).Saved?
    ensures StoredBytes(s) == |UploadOf(s).file|
  {
    var name := ReceiveName(Skip(s, false)[2..], NAME_LENGTH, []);
    AllComes(name.rest, []);
  }

  // ---------- the sender's side ----------

  /** Bytes the receiver takes no notice of. */
  ghost predicate Noise(s: seq<Byte>, orEnd: bool) {
    forall i :: 0 <= i < |s| ==> s[i] != MARK && !(orEnd && s[i] == END)
  }

  /** A byte with its mark, behind some noise. */
  datatype Frame = Frame(noise: seq<Byte>, data: Byte)

  function Framed(frames: seq<Frame>): seq<Byte>
    decreases |frames|
  {
    if frames == [] then [] else frames[0].noise + ([MARK, frames[0].data] + Framed(frames[1..]))
  }

  function DataOf(frames: seq<Frame>): (d: seq<Byte>)
    ensures |d| == |frames| && forall i :: 0 <= i < |d| ==> d[i] == frames[i].data
  {
    seq(|frames|, i requires 0 <= i < |frames| => frames[i].data)
  }

  ghost predicate Quiet(frames: seq<Frame>, orEnd: bool) {
    forall i :: 0 <= i < |frames| ==> Noise(frames[i].noise, orEnd)
  }

  function Upper(d: seq<Byte>): (u: seq<Byte>)
    ensures |u| == |d| && forall i :: 0 <= i < |d| ==> u[i] == ToUpper(d[i])
  {
    seq(|d|, i requires 0 <= i < |d| => ToUpper(d[i]))
  }

  lemma {:induction false} SkipsNoise(noise: seq<Byte>, rest: seq<Byte>, orEnd: bool)
    requires Noise(noise, orEnd) && rest != [] && (rest[0] == MARK || (orEnd && rest[0] == END))
    ensures Skip(noise + rest, orEnd) == rest
    decreases |noise|
  {
    if noise == [] {
      assert noise + rest == rest;
    } else {
      assert (noise + rest)[1..] == noise[1..] + rest;
      SkipsNoise(noise[1..], rest, orEnd);
    }
  }

  lemma FrameComes(f: Frame, more: seq<Byte>, rest: seq<Byte>, orEnd: bool)
    requires Noise(f.noise, orEnd)
    ensures Skip(f.noise + ([MARK, f.data] + more) + rest, orEnd) == [MARK, f.data] + (more + rest)
  {
    assert f.noise + ([MARK, f.data] + more) + rest == f.noise + ([MARK, f.data] + (more + rest));
    SkipsNoise(f.noise, [MARK, f.data] + (more + rest), orEnd);
  }

  lemma {:induction false} NameIsReceived(frames: seq<Frame>, rest: seq<Byte>, got: seq<Byte>)
    requires Quiet(frames, false)
    ensures ReceiveName(Framed(frames) + rest, |frames|, got) == Done(got + Upper(DataOf(frames)), rest)
    decreases |frames|
  {
    if frames == [] {
      assert [] + rest == rest && got + Upper(DataOf(frames)) == got;
    } else {
      var f, more := frames[0], Framed(frames[1..]);
      FrameComes(f, more, rest, false);
      assert ([MARK, f.data] + (more + rest))[2..] == more + rest;
      NameIsReceived(frames[1..], rest, got + [ToUpper(f.data)]);
      assert got + [ToUpper(f.data)] + Upper(DataOf(frames[1..])) == got + Upper(DataOf(frames));
    }
  }

  lemma EndComes(noise: seq<Byte>, rest: seq<Byte>, got: seq<Byte>)
    requires Noise(noise, true)
    ensures Receive(noise + ([END, MARK] + rest), got) == Done(got, rest)
  {
    SkipsNoise(noise, [END, MARK] + rest, true);
    assert ([END, MARK] + rest)[2..] == rest;
  }

  lemma {:induction false} FileIsReceived(frames: seq<Frame>, noise: seq<Byte>, rest: seq<Byte>, got: seq<Byte>)
    requires Quiet(frames, true) && Noise(noise, true)
    ensures Receive(Framed(frames) + (noise + ([END, MARK] + rest)), got) == Done(got + DataOf(frames), rest)
    decreases |frames|
  {
    var end := noise + ([END, MARK] + rest);
    if frames == [] {
      assert [] + end == end && got + DataOf(frames) == got;
      EndComes(noise, rest, got);
    } else {
      var f, more := frames[0], Framed(frames[1..]);
      FrameComes(f, more, end, true);
      assert ([MARK, f.data] + (more + end))[2..] == more + end;
      FileIsReceived(frames[1..], noise, rest, got + [f.data]);
      assert got + [f.data] + DataOf(frames[1..]) == got + DataOf(frames);
    }
  }

  /** Whatever bytes the file holds, marks and end bytes among them, and whatever noise there is between
      the frames: the upload saves the file under its name in upper case. */
  lemma UploadInvertsFraming(start: seq<Byte>, name: seq<Frame>, file: seq<Frame>, noise: seq<Byte>, rest: seq<Byte>)
    requires Noise(start, false) && |name| == NAME_LENGTH && Quiet(name, false) && Quiet(file, true) && Noise(noise, true)
    ensures UploadOf(start + ([MARK, MARK] + (Framed(name) + (Framed(file) + (noise + ([END, MARK] + rest))))))
      == Saved(Upper(DataOf(name)), DataOf(file))
  {
    var data := Framed(file) + (noise + ([END, MARK] + rest));
    SkipsNoise(start, [MARK, MARK] + (Framed(name) + data), false);
    NameIsReceived(name, data, []);
    FileIsReceived(file, noise, rest, []);
    assert [] + Upper(DataOf(name)) == Upper(DataOf(name)) && [] + DataOf(file) == DataOf(file);
    UploadIs(start + ([MARK, MARK] + (Framed(name) + data)), Framed(name) + data, data, Upper(DataOf(name)), DataOf(file), rest);
  }

  lemma UploadIs(s: seq<Byte>, body: seq<Byte>, data: seq<Byte>, name: seq<Byte>, file: seq<Byte>, rest: seq<Byte>)
    requires Skip(s, false) == [MARK, MARK] + body
    requires ReceiveName(body, NAME_LENGTH, []) == Done(name, data) && Receive(data, []) == Done(file, rest)
    ensures UploadOf(s) == Saved(name, file)
  {
    assert ([MARK, MARK] + body)[2..] == body;
  }

  /** The bytes on the line that mark, end and name a file. */
  lemma OnTheLine()
    ensures MARK == 0xDD && END == 0xEE && NAME_LENGTH == 15 && PIECE == 128
  {
  }

  /** A frame is its noise, the mark and its byte. */
  lemma FramedIs(f: Frame, frames: seq<Frame>)
    ensures Framed([]) == [] && Framed([f] + frames) == f.noise + [0xDD, f.data] + Framed(frames)
  {
    assert ([f] + frames)[1..] == frames;
    assert f.noise + ([0xDD, f.data] + Framed(frames)) == f.noise + [0xDD, f.data] + Framed(frames);
  }

  /** Whatever else the second byte is, it is no upload; without two bytes from the first mark on nothing happens yet. */
  lemma OtherStart(noise: seq<Byte>, b: Byte, rest: seq<Byte>)
    requires Noise(noise, false)
    ensures b != 0xDD ==> UploadOf(noise + ([0xDD, b] + rest)) == WrongStart
    ensures UploadOf(noise) == UploadOf(noise + [0xDD]) == Incomplete
  {
    SkipsNoise(noise, [0xDD, b] + rest, false);
    SkipsNoise(noise, [0xDD], false);
    NoiseIsSkipped(noise);
  }

  /** An end byte without a mark behind it is no end: both bytes are dropped. */
  lemma NoEnd(noise: seq<Byte>, b: Byte, rest: seq<Byte>, got: seq<Byte>)
    requires Noise(noise, true) && b != 0xDD
    ensures Receive(noise + ([0xEE, b] + rest), got) == Receive(rest, got)
  {
    SkipsNoise(noise, [0xEE, b] + rest, true);
    assert ([0xEE, b] + rest)[2..] == rest;
  }

  lemma {:induction false} NoiseIsSkipped(noise: seq<Byte>)
    requires Noise(noise, false)
    ensures Skip(noise, false) == []
    decreases |noise|
  {
    if noise != [] { NoiseIsSkipped(noise[1..]); }
  }

  // ---------- the loops ----------

  method FindMark(s: seq<Byte>, i: nat, orEnd: bool) returns (j: nat)
    requires i <= |s|
    ensures i <= j <= |s| && s[j..] == Skip(s[i..], orEnd)
  {
    j := i;
    while j < |s| && s[j] != MARK && !(orEnd && s[j] == END)
      invariant i <= j <= |s| && Skip(s[j..], orEnd) == Skip(s[i..], orEnd)
    {
      assert s[j..][1..] == s[j + 1..];
      j := j + 1;
    }
  }

  method GetName(s: seq<Byte>, i: nat) returns (done: bool, name: seq<Byte>, at: nat)
    requires i <= |s|
    ensures at <= |s| && ReceiveName(s[i..], NAME_LENGTH, []) == if done then Done(name, s[at..]) else Waiting
  {
    name := [];
    at := i;
    while |name| < NAME_LENGTH
      invariant at <= |s| && |name| <= NAME_LENGTH
      invariant ReceiveName(s[at..], NAME_LENGTH - |name|, name) == ReceiveName(s[i..], NAME_LENGTH, [])
      decreases NAME_LENGTH - |name|
    {
      var j := FindMark(s, at, false);
      if j + 1 >= |s| {
        return false, name, at;
      }
      assert s[j..][2..] == s[j + 2..];
      assert ReceiveName(s[at..], NAME_LENGTH - |name|, name)
        == ReceiveName(s[j + 2..], NAME_LENGTH - |name| - 1, name + [ToUpper(s[j + 1])]);
      name := name + [ToUpper(s[j + 1])];
      at := j + 2;
    }
    done := true;
  }

  /** Receive a file into memory, which must have room for it. */
  method GetFile(s: seq<Byte>, i: nat, memory: array<Byte>) returns (done: bool, count: nat)
    requires i <= |s| && ToCome(s[i..]) <= memory.Length
    modifies memory
    ensures var t := Receive(s[i..], []);
      done == t.Done? && (done ==> count <= memory.Length && memory[..count] == t.bytes)
  {
    count := 0;
    var at := i;
    while true
      invariant i <= at <= |s| && count + ToCome(s[at..]) <= memory.Length
      invariant Receive(s[at..], memory[..count]) == Receive(s[i..], [])
      decreases |s| - at
    {
      var j := FindMark(s, at, true);
      if j + 1 >= |s| {
        return false, count;
      }
      assert s[j..][2..] == s[j + 2..];
      if s[j] == MARK {
        ghost var got := memory[..count];
        memory[count] := s[j + 1];
        count := count + 1;
        assert memory[..count] == got + [s[j + 1]];
      } else if s[j + 1] == MARK {
        return true, count;
      }
      at := j + 2;
    }
  }

  /** The pieces in which a file is written. All but the last are whole; an empty file is one empty piece. */
  function Pieces(file: seq<Byte>): seq<seq<Byte>>
    decreases |file|
  {
    if |file| <= PIECE then [file] else [file[..PIECE]] + Pieces(file[PIECE..])
  }

  function Joined(pieces: seq<seq<Byte>>): seq<Byte>
    decreases |pieces|
  {
    if pieces == [] then [] else pieces[0] + Joined(pieces[1..])
  }

  /** Together the pieces are the file, for every length. */
  lemma {:induction false} PiecesMakeUp(file: seq<Byte>)
    ensures Joined(Pieces(file)) == file
    ensures |Pieces(file)| == if file == [] then 1 else (|file| + 127) / 128
    ensures forall i :: 0 <= i < |Pieces(file)| - 1 ==> |Pieces(file)[i]| == PIECE
    ensures |Pieces(file)[|Pieces(file)| - 1]| <= PIECE
    decreases |file|
  {
    if |file| <= PIECE {
      assert [file][1..] == [];
    } else {
      PiecesMakeUp(file[PIECE..]);
      assert Pieces(file)[1..] == Pieces(file[PIECE..]);
      assert file == file[..PIECE] + file[PIECE..];
    }
  }

  function PieceSize(left: nat): nat {
    if left > PIECE then PIECE else left
  }

  lemma NextPiece(memory: seq<Byte>, at: nat, count: nat, pieces: seq<seq<Byte>>)
    requires at <= count <= |memory|
    ensures at + PieceSize(count - at) <= count
    ensures var more := pieces + [memory[at..at + PieceSize(count - at)]];
      pieces + Pieces(memory[at..count]) == if at + PIECE >= count then more else more + Pieces(memory[at + PIECE..count])
  {
    var file := memory[at..count];
    var first := memory[at..at + PieceSize(count - at)];
    if at + PIECE >= count {
      assert first == file;
    } else {
      assert file[..PIECE] == first && file[PIECE..] == memory[at + PIECE..count];
      assert pieces + ([first] + Pieces(file[PIECE..])) == pieces + [first] + Pieces(file[PIECE..]);
    }
  }

  /** Write a file piece by piece. */
  method SavePieces(memory: array<Byte>, count: nat) returns (pieces: seq<seq<Byte>>)
    requires count <= memory.Length
    ensures pieces == Pieces(memory[..count])
    ensures Joined(pieces) == memory[..count]
  {
    ghost var all := memory[..];
    assert all[0..count] == memory[..count];
    pieces := [];
    var at, size := 0, if count > PIECE then PIECE else count;
    while true
      invariant 0 <= at <= count && size == PieceSize(count - at)
      invariant pieces + Pieces(all[at..count]) == Pieces(memory[..count])
      decreases count - at
    {
      var piece := memory[at..at + size];
      assert piece == all[at..at + size];
      NextPiece(all, at, count, pieces);
      pieces := pieces + [piece];
      assert at + PIECE >= count ==> pieces == Pieces(memory[..count]);
      at := at + PIECE;
      if at >= count {
        break;
      }
      size := if count - at > PIECE then PIECE else count - at;
    }
    PiecesMakeUp(memory[..count]);
  }

  /** The whole upload. */
  method Load232(s: seq<Byte>, memory: array<Byte>) returns (result: Upload, pieces: seq<seq<Byte>>)
    requires StoredBytes(s) <= memory.Length
    modifies memory
    ensures result == UploadOf(s) && (result.Saved? ==> Joined(pieces) == result.file)
  {
    pieces := [];
    assert s[0..] == s;
    var j := FindMark(s, 0, false);
    if j + 1 >= |s| {
      return Incomplete, pieces;
    }
    if s[j + 1] != MARK {
      return WrongStart, pieces;
    }
    assert s[j..][2..] == s[j + 2..];
    var named, name, at := GetName(s, j + 2);
    if !named {
      return Incomplete, pieces;
    }
    var done, count := GetFile(s, at, memory);
    if !done {
      return Incomplete, pieces;
    }
    pieces := SavePieces(memory, count);
    result := Saved(name, memory[..count]);
  }
}
