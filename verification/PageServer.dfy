/** Config_get_handler: the configuration page is read line by line into a 256-byte buffer
    and sent in chunks. */
module PageServer {
  import opened CTypes
  import opened CText

  const LINE_SIZE: nat := 256

  /** How many characters fgets takes: up to and including the first line end, at most
      `limit`. */
  function LineLength(s: string, limit: nat): (n: nat)
    ensures n <= |s| && n <= limit
    ensures s != "" && limit > 0 ==> n > 0
  {
    if s == "" || limit == 0 then 0
    else if s[0] == '\n' then 1
    else 1 + LineLength(s[1..], limit - 1)
  }

  /** The pieces fgets cuts the file into. */
  function Pieces(file: string): seq<string>
    decreases |file|
  {
    if file == "" then []
    else
      var n := LineLength(file, LINE_SIZE - 1);
      [file[..n]] + Pieces(file[n..])
  }

  /** What is sent for them: each piece up to its first NUL. */
  function Chunks(file: string): seq<string>
    decreases |file|
  {
    if file == "" then []
    else
      var n := LineLength(file, LINE_SIZE - 1);
      [CStr(file[..n])] + Chunks(file[n..])
  }

  function Concat(pieces: seq<string>): string {
    if pieces == [] then "" else pieces[0] + Concat(pieces[1..])
  }

  /** What a client makes of the chunks: an empty one ends the body (section 7.1 of
      RFC 9112). */
  function Body(sent: seq<string>): string {
    if sent == [] || sent[0] == "" then "" else sent[0] + Body(sent[1..])
  }

  // ---------------------------------------------------------------- the cut, declaratively

  predicate IsPiece(p: string) {
    1 <= |p| <= 255 && '\n' !in p[..|p| - 1]
  }

  predicate IsFull(p: string) {
    p != "" && (|p| == 255 || p[|p| - 1] == '\n')
  }

  /** `pieces` cuts `file` into pieces of 1 to 255 characters with a line end only in last
      place, none but the last of which could have been longer. */
  predicate WellCut(pieces: seq<string>, file: string) {
    && Concat(pieces) == file
    && (forall i :: 0 <= i < |pieces| ==> IsPiece(pieces[i]))
    && (forall i :: 0 <= i < |pieces| - 1 ==> IsFull(pieces[i]))
  }

  lemma {:induction false} LineIsPiece(s: string, limit: nat)
    requires s != "" && limit > 0
    ensures var n := LineLength(s, limit);
      && '\n' !in s[..n - 1]
      && (n < |s| ==> n == limit || s[n - 1] == '\n')
    decreases |s|
  {
    if s[0] != '\n' && |s| > 1 && limit > 1 {
      LineIsPiece(s[1..], limit - 1);
      var n := LineLength(s, limit);
      assert s[..n - 1] == [s[0]] + s[1..][..n - 2];
    }
  }

  lemma {:induction false} PiecesWellCut(file: string)
    ensures WellCut(Pieces(file), file)
    decreases |file|
  {
    if file != "" {
      var n := LineLength(file, LINE_SIZE - 1);
      LineIsPiece(file, LINE_SIZE - 1);
      PiecesWellCut(file[n..]);
      assert file[..n][..n - 1] == file[..n - 1];
      var rest := Pieces(file[n..]);
      assert Pieces(file)[1..] == rest;
      assert forall i :: 1 <= i < |Pieces(file)| ==> Pieces(file)[i] == rest[i - 1];
      assert |Pieces(file)| > 1 ==> file[n..] != "";
    }
  }

  lemma SamePrefix(p: string, u: string, q: string, v: string)
    requires p + u == q + v && 0 < |p| < |q|
    ensures u != "" && p[|p| - 1] in q[..|q| - 1]
  {
    assert |p + u| == |q + v|;
    assert q[..|q| - 1][|p| - 1] == (q + v)[|p| - 1] == (p + u)[|p| - 1] == p[|p| - 1];
  }

  /** Of two first pieces of the same text, neither can stop before the other. */
  lemma FirstPieceForced(p: string, u: string, q: string, v: string)
    requires p + u == q + v && IsPiece(p) && IsPiece(q)
    requires u == "" || IsFull(p)
    ensures |p| >= |q|
  {
    if |p| < |q| {
      SamePrefix(p, u, q, v);
      assert false;
    }
  }

  /** There is only one such cut. */
  lemma {:induction false} WellCutUnique(ps: seq<string>, qs: seq<string>, file: string)
    requires WellCut(ps, file) && WellCut(qs, file)
    ensures ps == qs
    decreases |ps|
  {
    if ps != [] && qs != [] {
      var p, q, u, v := ps[0], qs[0], Concat(ps[1..]), Concat(qs[1..]);
      assert u != "" ==> IsFull(p);
      assert v != "" ==> IsFull(q);
      FirstPieceForced(p, u, q, v);
      FirstPieceForced(q, v, p, u);
      assert p == file[..|p|] == q && u == file[|p|..] == v;
      WellCutUnique(ps[1..], qs[1..], u);
      assert ps == [p] + ps[1..] && qs == [q] + qs[1..];
    }
  }

  // ---------------------------------------------------------------- what arrives

  /** Every chunk is its piece up to the first NUL. */
  lemma {:induction false} ChunksExactly(file: string)
    ensures |Chunks(file)| == |Pieces(file)|
    ensures forall i :: 0 <= i < |Chunks(file)| ==> Chunks(file)[i] == CStr(Pieces(file)[i])
    decreases |file|
  {
    if file != "" {
      var n := LineLength(file, LINE_SIZE - 1);
      ChunksExactly(file[n..]);
      assert Chunks(file)[1..] == Chunks(file[n..]) && Pieces(file)[1..] == Pieces(file[n..]);
    }
  }

  lemma {:induction false} ChunksOfText(file: string)
    requires NulFree(file)
    ensures Chunks(file) == Pieces(file)
    decreases |file|
  {
    if file != "" {
      var n := LineLength(file, LINE_SIZE - 1);
      assert NulFree(file[..n]) && NulFree(file[n..]);
      ChunksOfText(file[n..]);
    }
  }

  lemma {:induction false} BodyOfPieces(pieces: seq<string>)
    requires forall i :: 0 <= i < |pieces| ==> pieces[i] != ""
    ensures Body(pieces + [""]) == Concat(pieces)
  {
    if pieces != [] {
      assert (pieces + [""])[1..] == pieces[1..] + [""];
      BodyOfPieces(pieces[1..]);
    }
  }

  lemma {:induction false} FirstChunk(s: string, n: nat)
    requires s != "" && n == LineLength(s, LINE_SIZE - 1)
    ensures Chunks(s) == [CStr(s[..n])] + Chunks(s[n..])
  {
  }

  lemma {:induction false} BodyCons(chunk: string, rest: seq<string>)
    ensures |Body([chunk] + rest)| <= |chunk| + |Body(rest)|
  {
    assert ([chunk] + rest)[1..] == rest;
  }

  lemma {:induction false} BodyLength(file: string)
    ensures |Body(Chunks(file) + [""])| <= |file|
    ensures !NulFree(file) ==> |Body(Chunks(file) + [""])| < |file|
    decreases |file|
  {
    if file != "" {
      var n := LineLength(file, LINE_SIZE - 1);
      var line, rest := file[..n], file[n..];
      assert file == line + rest;
      BodyLength(rest);
      FirstChunk(file, n);
      assert Chunks(file) + [""] == [CStr(line)] + (Chunks(rest) + [""]);
      BodyCons(CStr(line), Chunks(rest) + [""]);
      assert !NulFree(line) ==> |CStr(line)| < |line|;
    }
  }

  /** The client receives the page exactly when the page has no NUL; and then the chunks are
      the one well-formed cut, each non-empty, before the single empty one. */
  lemma {:induction false} PageArrives(file: string)
    ensures Body(Chunks(file) + [""]) == file <==> NulFree(file)
    ensures NulFree(file) ==> WellCut(Chunks(file), file)
  {
    BodyLength(file);
    if NulFree(file) {
      ChunksOfText(file);
      PiecesWellCut(file);
      BodyOfPieces(Pieces(file));
    }
  }

  // ---------------------------------------------------------------- the code

  lemma {:induction false} LineGrows(s: string, at: nat, limit: nat)
    requires at < |s| && limit > 0
    ensures LineLength(s[at..], limit) == 1 + if s[at] == '\n' then 0 else LineLength(s[at + 1..], limit - 1)
  {
  }

  /** A NUL at `n` decides what is read before it. */
  lemma {:induction false} CStrPrefix(s: string, n: nat)
    requires n < |s| && s[n] == NUL
    ensures CStr(s) == CStr(s[..n])
    decreases n
  {
    if n > 0 && s[0] != NUL {
      assert s[1..][..n - 1] == s[..n][1..];
      CStrPrefix(s[1..], n - 1);
    }
  }

  /** The line as a C text. */
  lemma {:induction false} LineText(line: string, file: string, pos: nat, next: nat)
    requires pos <= next <= |file| && next - pos < |line| && line[next - pos] == NUL
    requires forall i :: pos <= i < next ==> line[i - pos] == file[i]
    ensures line[..next - pos] == file[pos..next] && CStr(line) == CStr(file[pos..next])
  {
    assert forall k :: 0 <= k < next - pos ==> line[k] == file[k + pos];
    assert line[..next - pos] == file[pos..next];
    CStrPrefix(line, next - pos);
  }

  /** The characters of one line go into the buffer. */
  method CopyLine(line: array<char>, file: string, pos: nat) returns (next: nat)
    requires line.Length > 1 && pos < |file|
    modifies line
    ensures next == pos + LineLength(file[pos..], line.Length - 1) && pos <= next <= |file|
    ensures forall i :: pos <= i < next ==> line[i - pos] == file[i]
  {
    next := pos;
    var limit := line.Length - 1;
    var ended := false;
    while next < |file| && next - pos < limit && !ended
      invariant pos <= next <= |file| && next - pos <= limit
      invariant forall i :: pos <= i < next ==> line[i - pos] == file[i]
      invariant LineLength(file[pos..], limit) ==
                next - pos + if ended then 0 else LineLength(file[next..], limit - (next - pos))
    {
      LineGrows(file, next, limit - (next - pos));
      line[next - pos] := file[next];
      ended := file[next] == '\n';
      next := next + 1;
    }
  }

  /** fgets(line, line.Length, file) with the stream at `pos`. */
  method Fgets(line: array<char>, file: string, pos: nat) returns (got: bool, next: nat)
    requires line.Length > 1 && pos <= |file|
    modifies line
    ensures got == (pos < |file|)
    ensures next == pos + LineLength(file[pos..], line.Length - 1) <= |file|
    ensures !got ==> line[..] == old(line[..])
    ensures got ==> line[..next - pos] == file[pos..next] && line[next - pos] == NUL
    ensures got ==> CStr(line[..]) == CStr(file[pos..next])
  {
    if pos == |file| {
      return false, pos;
    }
    got := true;
    next := CopyLine(line, file, pos);
    line[next - pos] := NUL;
    LineText(line[..], file, pos, next);
    assert line[..][..next - pos] == line[..next - pos];
  }

  lemma {:induction false} ChunkStep(page: string, pos: nat, next: nat, sent: seq<string>)
    requires pos < |page| && next == pos + LineLength(page[pos..], LINE_SIZE - 1) <= |page|
    ensures (sent + [CStr(page[pos..next])]) + Chunks(page[next..]) == sent + Chunks(page[pos..])
  {
    var rest, n := page[pos..], next - pos;
    assert rest[..n] == page[pos..next] && rest[n..] == page[next..];
    FirstChunk(rest, n);
  }

  /** `file` is the opened page, None when fopen failed; `sent` are the chunks in order. */
  method ConfigGetHandler(file: Option<string>) returns (found: bool, sent: seq<string>)
    ensures found == file.Some?
    ensures sent == if file.Some? then Chunks(file.value) + [""] else []
  {
    sent := [];
    if file == None {
      return false, [];
    }
    var page := file.value;
    var line := new char[LINE_SIZE];
    var pos := 0;
    var got, next := Fgets(line, page, pos);
    assert page[0..] == page;
    while got
      invariant 0 <= pos <= next <= |page| && got == (pos < |page|)
      invariant next == pos + LineLength(page[pos..], LINE_SIZE - 1)
      invariant got ==> CStr(line[..]) == CStr(page[pos..next])
      invariant sent + Chunks(page[pos..]) == Chunks(page)
      decreases |page| - pos
    {
      ChunkStep(page, pos, next, sent);
      sent := sent + [CStr(line[..])];
      pos := next;
      got, next := Fgets(line, page, pos);
    }
    assert sent == Chunks(page);
    sent := sent + [""];
    found := true;
  }
}
