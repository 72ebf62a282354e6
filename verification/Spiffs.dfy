/** The files below /spiffs: word arrays under truncated paths, whole-text storage, and
    removal.  The volume is a map from path to bytes. */
module Spiffs {
  import opened CTypes
  import opened CText

  type Files = map<string, string>

  /** What the C library did for one call: whether malloc and fopen succeeded, and how many
      bytes at most reached the other side. */
  datatype FileIo = FileIo(mallocOk: bool, openOk: bool, moved: nat)

  datatype EspErr = EspOk | EspFail

  // ---------------------------------------------------------------- paths

  const BASE := "/spiffs/"

  /** pathfile[30] */
  function SavePath(name: string): string {
    Take(BASE + name, 29)
  }

  /** file_path[20] */
  function DeletePath(name: string): string {
    Take(BASE + name, 19)
  }

  /** Two names share a file exactly when they agree on the first 21 characters. */
  lemma SavePathAliases(name: string, other: string)
    ensures SavePath(name) == SavePath(other) <==> Take(name, 21) == Take(other, 21)
  {
    assert SavePath(name) == BASE + Take(name, 21) && SavePath(other) == BASE + Take(other, 21);
    assert SavePath(name)[8..] == Take(name, 21) && SavePath(other)[8..] == Take(other, 21);
  }

  /** snprintf(path, size, "/spiffs/%s", name) */
  method FormatPath(size: nat, name: Text) returns (path: Text)
    requires size > 0
    ensures path == Take(BASE + name, size - 1)
  {
    assert NulFree(BASE);
    path := FormatText(size, BASE + name);
  }

  // ---------------------------------------------------------------- words

  /** (unsigned char) c */
  function ByteOf(c: char): Byte {
    c as int % 256
  }

  /** The four bytes of a uint32_t, least significant first. */
  function WordBytes(w: Word): (s: string)
    ensures |s| == 4
  {
    [(w % 256) as char, (w / 256 % 256) as char, (w / 256 / 256 % 256) as char, (w / 256 / 256 / 256) as char]
  }

  function Bytes(words: seq<Word>): (s: string)
    ensures |s| == 4 * |words|
  {
    if words == [] then "" else Bytes(words[..|words| - 1]) + WordBytes(words[|words| - 1])
  }

  function WordAt(s: string, i: nat): Word
    requires 4 * i + 4 <= |s|
  {
    ByteOf(s[4 * i]) + 256 * (ByteOf(s[4 * i + 1]) + 256 * (ByteOf(s[4 * i + 2]) + 256 * ByteOf(s[4 * i + 3])))
  }

  /** Least significant byte first. */
  lemma WordReadsBack(w: Word)
    ensures WordAt(WordBytes(w), 0) == w
    ensures var s := WordBytes(w);
      w == ByteOf(s[0]) + 0x100 * ByteOf(s[1]) + 0x1_0000 * ByteOf(s[2]) + 0x100_0000 * ByteOf(s[3])
  {
  }

  lemma {:induction false} WordsReadBack(words: seq<Word>, i: nat)
    requires i < |words|
    ensures WordAt(Bytes(words), i) == words[i]
  {
    var s, front := Bytes(words), words[..|words| - 1];
    if i < |front| {
      WordsReadBack(front, i);
      assert s[..|Bytes(front)|] == Bytes(front);
    } else {
      WordReadsBack(words[i]);
      assert s[4 * i..] == WordBytes(words[i]);
    }
  }

  /** fwrite(data, 4, length, f) on a file opened for writing. */
  function Saved(files: Files, name: string, words: seq<Word>, io: FileIo): Files {
    if io.mallocOk && io.openOk then files[SavePath(name) := Take(Bytes(words), io.moved)] else files
  }

  predicate FullySaved(words: seq<Word>, io: FileIo) {
    io.mallocOk && io.openOk && 4 * |words| <= io.moved
  }

  /** What fread gets to see of the file, None when the file is not opened. */
  function Delivered(files: Files, path: string, io: FileIo): Option<string> {
    if io.mallocOk && io.openOk && path in files then Some(Take(files[path], io.moved)) else None
  }

  /** fread(data, 4, length, f): whole words first; the bytes of an incomplete one make the
      next element indeterminate (`junk`). */
  function Loaded(data: seq<Word>, length: nat, content: string, junk: Word): (r: seq<Word>)
    requires length <= |data|
    ensures |r| == |data|
  {
    var n := if |content| / 4 < length then |content| / 4 else length;
    seq(|data|, i requires 0 <= i < |data| =>
      if i < n then WordAt(content, i)
      else if i == n < length && |content| % 4 != 0 then junk
      else data[i])
  }

  function Read(files: Files, data: seq<Word>, length: nat, name: string, io: FileIo, junk: Word): seq<Word>
    requires length <= |data|
  {
    match Delivered(files, SavePath(name), io)
    case None => data
    case Some(content) => Loaded(data, length, content, junk)
  }

  /** Reading after a full save: under every name that agrees with the saved one on the first
      21 characters the leading min(saved, asked) elements are the saved words and the others
      keep their values; under any other name the save is not noticed. */
  lemma SaveThenRead(files: Files, name: string, words: seq<Word>, save: FileIo,
                     other: string, data: seq<Word>, length: nat, read: FileIo, junk: Word)
    requires FullySaved(words, save) && length <= |data|
    ensures var got := Read(Saved(files, name, words, save), data, length, other, read, junk);
      if Take(name, 21) != Take(other, 21) then got == Read(files, data, length, other, read, junk)
      else read.mallocOk && read.openOk && 4 * |words| <= read.moved ==>
        var n := if |words| < length then |words| else length;
        got == words[..n] + data[n..]
  {
    SavePathAliases(name, other);
    assert Take(Bytes(words), save.moved) == Bytes(words);
    var n := if |words| < length then |words| else length;
    forall i | 0 <= i < n
      ensures WordAt(Bytes(words), i) == words[i]
    {
      WordsReadBack(words, i);
    }
  }

  function Least(a: nat, b: nat): nat {
    if a < b then a else b
  }

  lemma {:induction false} LoadedPrefix(words: seq<Word>, through: nat, data: seq<Word>, length: nat, junk: Word)
    requires through <= 4 * |words| && length <= |data|
    ensures var n := Least(through / 4, length);
      var got := Loaded(data, length, Bytes(words)[..through], junk);
      && n <= |words| && |got| == |data| && got[..n] == words[..n]
      && got[n..] == if n < length && through % 4 != 0 then [junk] + data[n + 1..] else data[n..]
  {
    var n := Least(through / 4, length);
    forall i | 0 <= i < n
      ensures WordAt(Bytes(words)[..through], i) == words[i]
    {
      WordsReadBack(words, i);
    }
  }

  lemma TakeTwice(s: string, a: nat, b: nat)
    ensures Take(Take(s, a), b) == s[..Least(Least(a, |s|), b)]
  {
  }

  lemma {:induction false} DeliveredPrefix(files: Files, name: string, words: seq<Word>, save: FileIo, read: FileIo)
    requires save.mallocOk && save.openOk && read.mallocOk && read.openOk
    ensures var through := Least(Least(save.moved, 4 * |words|), read.moved);
      Delivered(Saved(files, name, words, save), SavePath(name), read) == Some(Bytes(words)[..through])
  {
    TakeTwice(Bytes(words), save.moved, read.moved);
  }

  /** The same for short writes and reads: as many leading words as came through whole, and
      the next element spoilt exactly when a part of it did. */
  lemma {:induction false} SaveThenShortRead(files: Files, name: string, words: seq<Word>, save: FileIo,
                                             data: seq<Word>, length: nat, read: FileIo, junk: Word)
    requires save.mallocOk && save.openOk && read.mallocOk && read.openOk && length <= |data|
    ensures var through := Least(Least(save.moved, 4 * |words|), read.moved);
      var n := Least(through / 4, length);
      var got := Read(Saved(files, name, words, save), data, length, name, read, junk);
      && n <= |words| && |got| == |data| && got[..n] == words[..n]
      && got[n..] == if n < length && through % 4 != 0 then [junk] + data[n + 1..] else data[n..]
  {
    var through := Least(Least(save.moved, 4 * |words|), read.moved);
    DeliveredPrefix(files, name, words, save, read);
    LoadedPrefix(words, through, data, length, junk);
  }

  /** A save that does not open its file changes nothing, and no save changes another path; a
      read that does not open its file leaves the caller's array alone. */
  lemma SaveAndReadFrame(files: Files, name: string, words: seq<Word>, io: FileIo, path: string,
                         data: seq<Word>, length: nat, junk: Word)
    requires length <= |data|
    ensures !(io.mallocOk && io.openOk) || path != SavePath(name) ==>
      var after := Saved(files, name, words, io);
      (path in after <==> path in files) && (path in files ==> after[path] == files[path])
    ensures !(io.mallocOk && io.openOk && SavePath(name) in files) ==> Read(files, data, length, name, io, junk) == data
  {
  }

  // ---------------------------------------------------------------- texts

  /** store_data reports success as soon as the file is open; fprintf's result is ignored. */
  function Stored(files: Files, path: string, text: string, io: FileIo): (Files, EspErr) {
    if io.openOk then (files[path := Take(text, io.moved)], EspOk) else (files, EspFail)
  }

  /** read_data: the whole content as C text, or NULL. */
  function ReadText(files: Files, path: string, io: FileIo): Option<string> {
    if io.mallocOk && io.openOk && path in files && |files[path]| <= io.moved
    then Some(CStr(files[path])) else None
  }

  /** ESP_OK from store_data does not say that the text is there: a complete read gives it
      back exactly when the device took all of it and it has no NUL. */
  lemma StoredTextReadsBack(files: Files, path: string, text: string, io: FileIo, read: FileIo)
    requires Stored(files, path, text, io).1 == EspOk
    requires read.mallocOk && read.openOk && |text| <= read.moved
    ensures ReadText(Stored(files, path, text, io).0, path, read) == Some(text)
      <==> |text| <= io.moved && NulFree(text)
  {
  }

  /** Storing a text reports ESP_OK exactly when the file opened, and touches no other path,
      nor any when it did not. */
  lemma StoreFrame(files: Files, path: string, text: string, io: FileIo, other: string)
    ensures Stored(files, path, text, io).1 == EspOk <==> io.openOk
    ensures !io.openOk || other != path ==>
      var after := Stored(files, path, text, io).0;
      (other in after <==> other in files) && (other in files ==> after[other] == files[other])
  {
  }

  // ---------------------------------------------------------------- removal

  function Deleted(files: Files, name: string, removeOk: bool): Files {
    if removeOk then files - {DeletePath(name)} else files
  }

  /** A removal takes away the one path, if the library removes it, and nothing else. */
  lemma DeleteExactly(files: Files, name: string, removeOk: bool, path: string)
    ensures var after := Deleted(files, name, removeOk);
      && (path in after <==> path in files && !(removeOk && path == Take("/spiffs/" + name, 19)))
      && (path in after ==> after[path] == files[path])
  {
  }

  /** Saving and deleting truncate differently.  Deleting after a full save removes the saved
      file exactly for names of at most 11 characters, and is then an exact undo on a volume
      that did not have it; for longer names the saved file stays, words and all. */
  lemma DeleteAfterSave(files: Files, name: string, words: seq<Word>, io: FileIo)
    requires FullySaved(words, io)
    ensures var after := Deleted(Saved(files, name, words, io), name, true);
      && (SavePath(name) !in after <==> |name| <= 11)
      && (|name| <= 11 ==> after == files - {SavePath(name)})
      && (|name| > 11 ==> SavePath(name) in after && after[SavePath(name)] == Bytes(words)
                          && after == Saved(files, name, words, io) - {DeletePath(name)})
  {
  }

  // ---------------------------------------------------------------- the code

  lemma {:induction false} CStrPadded(s: string)
    ensures CStr(s + [NUL, NUL]) == CStr(s)
    decreases |s|
  {
    if s != "" && s[0] != NUL {
      assert (s + [NUL, NUL])[1..] == s[1..] + [NUL, NUL];
      CStrPadded(s[1..]);
    }
  }

  class Volume {
    var files: Files

    constructor (initial: Files)
      ensures files == initial
    {
      files := initial;
    }

    method SaveDataToSpiffs(data: array<Word>, length: nat, name: string, io: FileIo)
      requires length <= data.Length && NulFree(name)
      modifies this
      ensures files == Saved(old(files), name, data[..length], io)
    {
      if !io.mallocOk {
        return;
      }
      var pathfile := FormatPath(30, name);
      if !io.openOk {
        return;
      }
      files := files[pathfile := Take(Bytes(data[..length]), io.moved)];
    }

    method ReadDataFromSpiffs(data: array<Word>, length: nat, name: string, io: FileIo, junk: Word)
      requires length <= data.Length && NulFree(name)
      modifies data
      ensures data[..] == Read(files, old(data[..]), length, name, io, junk)
    {
      if !io.mallocOk {
        return;
      }
      var pathfile := FormatPath(30, name);
      if !io.openOk || pathfile !in files {
        return;
      }
      var content := Take(files[pathfile], io.moved);
      var n := 0;
      while n < length && 4 * n + 4 <= |content|
        invariant 0 <= n <= length && 4 * n <= |content|
        invariant forall i :: 0 <= i < n ==> data[i] == WordAt(content, i)
        invariant data[n..] == old(data[n..])
      {
        data[n] := WordAt(content, n);
        n := n + 1;
      }
      if n < length && |content| % 4 != 0 {
        data[n] := junk;
      }
    }

    /** The zeroed buffer is two bytes longer than the file. */
    method ReadData(path: string, io: FileIo) returns (data: array?<char>)
      ensures data == null <==> ReadText(files, path, io) == None
      ensures data != null ==> fresh(data) && NUL in data[..] && Some(CStr(data[..])) == ReadText(files, path, io)
    {
      if !io.openOk || path !in files {
        return null;
      }
      var fileSize := |files[path]|;
      if !io.mallocOk {
        return null;
      }
      var content := Take(files[path], io.moved);
      if |content| != fileSize {
        return null;
      }
      data := new char[fileSize + 2](i => if 0 <= i < |content| then content[i] else NUL);
      assert data[..] == content + [NUL, NUL];
      CStrPadded(content);
    }

    method StoreData(path: string, text: string, io: FileIo) returns (err: EspErr)
      modifies this
      ensures (files, err) == Stored(old(files), path, text, io)
    {
      if !io.openOk {
        return EspFail;
      }
      files := files[path := Take(text, io.moved)];
      return EspOk;
    }

    method DeleteFiles(name: string, removeOk: bool)
      requires NulFree(name)
      modifies this
      ensures files == Deleted(old(files), name, removeOk)
    {
      var filePath := FormatPath(20, name);
      if removeOk {
        files := files - {filePath};
      }
    }
  }
}
