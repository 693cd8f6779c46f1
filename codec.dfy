/**
 * The plain-text state format: one line per row, '1' for a live cell and
 * '0' for a dead one, rows separated by '\n' and no newline after the last
 * row. The encoder is a function from cells to text; the decoder is a
 * function over the lines a line scanner yields, each trimmed of white
 * space first. File access is not part of this module.
 */
module Codec {
  import opened Wrappers
  import opened Rules

  // ---------------------------------------------------------------------------
  // Text primitives the decoder relies on
  // ---------------------------------------------------------------------------

  /** White space as Go's unicode.IsSpace defines it. */
  predicate IsSpace(ch: char)
  {
    ch == '\t' || ch == '\n' || ch == '\U{B}' || ch == '\U{C}' || ch == '\r' || ch == ' '
    || ch == '\U{85}' || ch == '\U{A0}' || ch == '\U{1680}'
    || ('\U{2000}' <= ch <= '\U{200A}')
    || ch == '\U{2028}' || ch == '\U{2029}' || ch == '\U{202F}' || ch == '\U{205F}' || ch == '\U{3000}'
  }

  /** s without its leading white space. */
  function TrimLeft(s: string): (r: string)
    ensures |r| <= |s|
  {
    if s != [] && IsSpace(s[0]) then TrimLeft(s[1..]) else s
  }

  /** s without its trailing white space. */
  function TrimRight(s: string): (r: string)
    ensures |r| <= |s|
  {
    if s != [] && IsSpace(s[|s| - 1]) then TrimRight(s[..|s| - 1]) else s
  }

  /** s without leading and trailing white space (strings.TrimSpace). */
  function TrimSpace(s: string): (r: string)
    ensures |r| <= |s|
  {
    TrimRight(TrimLeft(s))
  }

  /** TrimLeft removes a prefix of white space and stops at the first other character. */
  lemma {:induction false} TrimLeftSpec(s: string)
    ensures var r := TrimLeft(s);
      && |r| <= |s| && r == s[|s| - |r|..]
      && (forall i :: 0 <= i < |s| - |r| ==> IsSpace(s[i]))
      && (r != [] ==> !IsSpace(r[0]))
  {
    if s != [] && IsSpace(s[0]) {
      var t := s[1..];
      TrimLeftSpec(t);
      var r := TrimLeft(t);
      assert TrimLeft(s) == r;
      assert t[|t| - |r|..] == s[|s| - |r|..];
      forall i | 0 <= i < |s| - |r|
        ensures IsSpace(s[i])
      {
        if i > 0 {
          assert s[i] == t[i - 1];
        }
      }
    }
  }

  /** TrimRight removes a suffix of white space and stops at the last other character. */
  lemma {:induction false} TrimRightSpec(s: string)
    ensures var r := TrimRight(s);
      && |r| <= |s| && r == s[..|r|]
      && (forall i :: |r| <= i < |s| ==> IsSpace(s[i]))
      && (r != [] ==> !IsSpace(r[|r| - 1]))
  {
    if s != [] && IsSpace(s[|s| - 1]) {
      TrimRightSpec(s[..|s| - 1]);
    }
  }

  /**
   * TrimSpace keeps a middle part s[i..i + |r|] of s, everything around it is
   * white space, and the part itself neither starts nor ends with white space.
   */
  lemma TrimSpaceSpec(s: string)
    ensures var r := TrimSpace(s); var i := |s| - |TrimLeft(s)|;
      && 0 <= i <= i + |r| <= |s| && r == s[i..i + |r|]
      && (forall k :: 0 <= k < i ==> IsSpace(s[k]))
      && (forall k :: i + |r| <= k < |s| ==> IsSpace(s[k]))
      && (r != [] ==> !IsSpace(r[0]) && !IsSpace(r[|r| - 1]))
  {
    var l := TrimLeft(s);
    TrimLeftSpec(s);
    TrimRightSpec(l);
    var r := TrimSpace(s);
    var i := |s| - |l|;
    MiddleSlice(s, l, r, i);
    forall k | i + |r| <= k < |s|
      ensures IsSpace(s[k])
    {
      assert s[k] == l[k - i];
    }
  }

  /** A prefix r of the suffix l = s[i..] is the slice s[i..i + |r|], and the rest of l is the rest of s. */
  lemma MiddleSlice(s: string, l: string, r: string, i: int)
    requires 0 <= i <= |s| && l == s[i..] && |r| <= |l| && r == l[..|r|]
    ensures r == s[i..i + |r|]
    ensures r != [] ==> r[0] == l[0]
    ensures forall k :: i + |r| <= k < |s| ==> s[k] == l[k - i]
  {
  }

  /** Trimming leaves a string alone when it neither starts nor ends with white space. */
  lemma TrimSpaceUnchanged(s: string)
    requires s != [] ==> !IsSpace(s[0]) && !IsSpace(s[|s| - 1])
    ensures TrimSpace(s) == s
  {
  }

  /** Number of bytes of ch in UTF-8. */
  function CharLen(ch: char): (n: nat)
    ensures 1 <= n <= 4
    ensures n == 1 <==> ch as int < 0x80
  {
    if ch as int < 0x80 then 1
    else if ch as int < 0x800 then 2
    else if ch as int < 0x1_0000 then 3
    else 4
  }

  /** Length of s in UTF-8 bytes, which is what Go's len gives for a string. */
  function ByteLen(s: string): (n: nat)
    ensures |s| <= n <= 4 * |s|
  {
    if s == [] then 0 else CharLen(s[0]) + ByteLen(s[1..])
  }

  /** A string has at least as many bytes as characters, and exactly as many when it is ASCII. */
  lemma {:induction false} ByteLenSpec(s: string)
    ensures ByteLen(s) >= |s|
    ensures (forall i :: 0 <= i < |s| ==> s[i] as int < 0x80) ==> ByteLen(s) == |s|
  {
    if s != [] {
      ByteLenSpec(s[1..]);
      assert forall i :: 0 <= i < |s| - 1 ==> s[1..][i] == s[i + 1];
    }
  }

  /** A line made of '0' and '1' has as many bytes as cells. */
  lemma BinaryByteLen(t: string)
    requires IsBinary(t)
    ensures ByteLen(t) == |t|
  {
    ByteLenSpec(t);
  }

  /** s cut at every '\n'; the pieces never contain '\n'. */
  function Split(s: string): (parts: seq<string>)
    ensures |parts| >= 1
    ensures forall i :: 0 <= i < |parts| ==> '\n' !in parts[i]
  {
    if s == [] then [[]]
    else
      var rest := Split(s[1..]);
      if s[0] == '\n' then [[]] + rest
      else [[s[0]] + rest[0]] + rest[1..]
  }

  /** A line without one trailing carriage return. */
  function DropCR(t: string): (r: string)
    ensures r == t || (t == r + "\r")
  {
    if t != [] && t[|t| - 1] == '\r' then t[..|t| - 1] else t
  }

  /**
   * The lines bufio.ScanLines yields for text: the pieces between '\n'
   * characters, each without a trailing '\r', and no empty last line when
   * the text ends with '\n' or is empty.
   */
  function ScanLines(text: string): (lines: seq<string>)
    ensures forall i :: 0 <= i < |lines| ==> '\n' !in lines[i]
  {
    var parts := Split(text);
    var tokens := if parts[|parts| - 1] == [] then parts[..|parts| - 1] else parts;
    seq(|tokens|, i requires 0 <= i < |tokens| => DropCR(tokens[i]))
  }

  lemma {:induction false} SplitNoNewline(a: string)
    requires '\n' !in a
    ensures Split(a) == [a]
  {
    if a != [] {
      SplitNoNewline(a[1..]);
      assert [a[0]] + a[1..] == a;
    }
  }

  lemma {:induction false} SplitNewline(a: string, b: string)
    requires '\n' !in a
    ensures Split(a + "\n" + b) == [a] + Split(b)
  {
    if a == [] {
      assert a + "\n" + b == "\n" + b;
      assert ("\n" + b)[1..] == b;
    } else {
      SplitNewline(a[1..], b);
      assert (a + "\n" + b)[1..] == a[1..] + "\n" + b;
      assert [a[0]] + a[1..] == a;
    }
  }

  // ---------------------------------------------------------------------------
  // Encoder (SaveState)
  // ---------------------------------------------------------------------------

  function CellChar(alive: bool): (ch: char)
    ensures ch == '0' || ch == '1'
  {
    if alive then '1' else '0'
  }

  /** One row as text. */
  function RowText(row: seq<bool>): (t: string)
  {
    seq(|row|, i requires 0 <= i < |row| => CellChar(row[i]))
  }

  /** The text of the first n rows of c; every row but the last of c is followed by '\n'. */
  function EncodeRows(c: Cells, n: int): (t: string)
    requires 0 <= n <= |c|
    ensures forall i :: 0 <= i < |t| ==> t[i] == '0' || t[i] == '1' || t[i] == '\n'
  {
    if n == 0 then ""
    else EncodeRows(c, n - 1) + RowText(c[n - 1]) + (if n - 1 < |c| - 1 then "\n" else "")
  }

  /** The state file text of c. */
  function Encode(c: Cells): (t: string)
    ensures forall i :: 0 <= i < |t| ==> t[i] == '0' || t[i] == '1' || t[i] == '\n'
  {
    EncodeRows(c, |c|)
  }

  // ---------------------------------------------------------------------------
  // Decoder (LoadState)
  // ---------------------------------------------------------------------------

  datatype LoadError = WidthMismatch | InvalidCharacter

  /** What a successful load assigns to the world: its height, width and cells. */
  datatype Loaded = Loaded(height: int, width: int, cells: Cells)

  predicate IsBinary(t: string)
  {
    forall i :: 0 <= i < |t| ==> t[i] == '0' || t[i] == '1'
  }

  /** The cells a binary line stands for. */
  function Bits(t: string): (row: seq<bool>)
    ensures |row| == |t|
  {
    seq(|t|, i requires 0 <= i < |t| => t[i] == '1')
  }

  /** A trimmed line decoded cell by cell; None at the first character other than '0' or '1'. */
  function DecodeRow(t: string): (r: Option<seq<bool>>)
    ensures r.Some? <==> IsBinary(t)
    ensures r.Some? ==> r.value == Bits(t)
  {
    if t == [] then Some([])
    else if t[0] != '0' && t[0] != '1' then None
    else
      match DecodeRow(t[1..])
      case None => None
      case Some(rest) => Some([t[0] == '1'] + rest)
  }

  /** Go's len of line i after trimming: its length in bytes. */
  function LineWidth(lines: seq<string>, i: int): (n: nat)
    requires 0 <= i < |lines|
  {
    ByteLen(TrimSpace(lines[i]))
  }

  /**
   * The decoder's state after the first n lines: the established width and
   * the rows so far, or the error that stopped it. While the width is 0 each
   * line, blank or not, sets it; once it is non-zero every line must have
   * that length. The width test comes before the character test.
   */
  function DecodeLines(lines: seq<string>, n: int): (r: Result<(int, Cells), LoadError>)
    requires 0 <= n <= |lines|
    ensures r.Success? ==> |r.value.1| == n
  {
    if n == 0 then Success((0, []))
    else
      match DecodeLines(lines, n - 1)
      case Failure(e) => Failure(e)
      case Success((width, rows)) =>
        var len := LineWidth(lines, n - 1);
        if width != 0 && width != len then Failure(WidthMismatch)
        else
          match DecodeRow(TrimSpace(lines[n - 1]))
          case None => Failure(InvalidCharacter)
          case Some(row) => Success((if width == 0 then len else width, rows + [row]))
  }

  /** One more line of the decoder, given its state after the first n. */
  lemma DecodeLinesNext(lines: seq<string>, n: int, width: int, rows: Cells)
    requires 0 <= n < |lines| && DecodeLines(lines, n) == Success((width, rows))
    ensures var t := TrimSpace(lines[n]);
            DecodeLines(lines, n + 1)
            == if width != 0 && width != ByteLen(t) then Failure(WidthMismatch)
               else if !DecodeRow(t).Some? then Failure(InvalidCharacter)
               else Success((if width == 0 then ByteLen(t) else width, rows + [DecodeRow(t).value]))
  {
  }

  /** The whole load: height is the number of lines, width the established width. */
  function Decode(lines: seq<string>): (r: Result<Loaded, LoadError>)
    ensures r.Success? ==> r.value.height == |r.value.cells| == |lines|
  {
    match DecodeLines(lines, |lines|)
    case Failure(e) => Failure(e)
    case Success((width, rows)) => Success(Loaded(|rows|, width, rows))
  }

  /** Loading a file's text. */
  function Load(text: string): (r: Result<Loaded, LoadError>)
    ensures r.Success? ==> r.value.height == |ScanLines(text)|
  {
    Decode(ScanLines(text))
  }

  // ---------------------------------------------------------------------------
  // What the decoder accepts
  // ---------------------------------------------------------------------------

  /** Every one of the first n lines is made of '0' and '1' once trimmed. */
  ghost predicate AllBinary(lines: seq<string>, n: int)
    requires 0 <= n <= |lines|
  {
    forall i :: 0 <= i < n ==> IsBinary(TrimSpace(lines[i]))
  }

  /** Among the first n lines, every line after a non-blank one has the same length as it. */
  ghost predicate WidthsAgree(lines: seq<string>, n: int)
    requires 0 <= n <= |lines|
  {
    forall i, j :: 0 <= i < j < n && LineWidth(lines, i) != 0 ==> LineWidth(lines, j) == LineWidth(lines, i)
  }

  /** Line j is where the decoder stops with e, the lines before it being acceptable. */
  ghost predicate FailsAt(lines: seq<string>, j: int, e: LoadError)
    requires 0 <= j < |lines|
  {
    match e
    case WidthMismatch => !WidthsAgree(lines, j + 1)
    case InvalidCharacter => WidthsAgree(lines, j + 1) && !IsBinary(TrimSpace(lines[j]))
  }

  /** The first n lines, their rows and the width, as the decoder should leave them. */
  ghost predicate DecodedPrefix(lines: seq<string>, n: int, width: int, rows: Cells)
    requires 0 <= n <= |lines|
  {
    && |rows| == n
    && (forall i :: 0 <= i < n ==> rows[i] == Bits(TrimSpace(lines[i])))
    && (forall i :: 0 <= i < n && LineWidth(lines, i) != 0 ==> width == LineWidth(lines, i))
    && ((forall i :: 0 <= i < n ==> LineWidth(lines, i) == 0) ==> width == 0)
  }

  /** Both acceptance conditions hold for every prefix of an accepted prefix. */
  lemma AcceptedPrefix(lines: seq<string>, m: int, n: int)
    requires 0 <= m <= n <= |lines|
    ensures AllBinary(lines, n) ==> AllBinary(lines, m)
    ensures WidthsAgree(lines, n) ==> WidthsAgree(lines, m)
  {
  }

  /** One more line keeps the widths in agreement exactly when it has the established width, or none is established. */
  lemma WidthsAgreeExtend(lines: seq<string>, m: int, width: int, rows: Cells)
    requires 0 <= m < |lines|
    requires WidthsAgree(lines, m) && DecodedPrefix(lines, m, width, rows)
    ensures WidthsAgree(lines, m + 1) <==> width == 0 || width == LineWidth(lines, m)
  {
    if width != 0 && width != LineWidth(lines, m) {
      var i :| 0 <= i < m && LineWidth(lines, i) != 0;
      assert LineWidth(lines, m) != LineWidth(lines, i);
    }
  }

  /** Accepting one more line extends the decoded prefix as the decoder does. */
  lemma DecodedPrefixExtend(lines: seq<string>, m: int, width: int, rows: Cells)
    requires 0 <= m < |lines|
    requires DecodedPrefix(lines, m, width, rows)
    requires width == 0 || width == LineWidth(lines, m)
    ensures DecodedPrefix(lines, m + 1, if width == 0 then LineWidth(lines, m) else width,
                          rows + [Bits(TrimSpace(lines[m]))])
  {
    if width == 0 {
      forall i | 0 <= i < m
        ensures LineWidth(lines, i) == 0
      {
      }
    }
  }

  /** What the decoder's state after n lines means, as DecodeLinesSpec states it. */
  ghost predicate DecodeLinesMeaning(lines: seq<string>, n: int)
    requires 0 <= n <= |lines|
  {
    && (DecodeLines(lines, n).Success? <==> AllBinary(lines, n) && WidthsAgree(lines, n))
    && (DecodeLines(lines, n).Success? ==>
          DecodedPrefix(lines, n, DecodeLines(lines, n).value.0, DecodeLines(lines, n).value.1))
    && (DecodeLines(lines, n).Failure? ==>
          exists j :: 0 <= j < n && AllBinary(lines, j) && WidthsAgree(lines, j)
                      && FailsAt(lines, j, DecodeLines(lines, n).error))
  }

  /** The decoder's state after n lines, characterised without reference to its loop. */
  lemma {:induction false} DecodeLinesSpec(lines: seq<string>, n: int)
    requires 0 <= n <= |lines|
    ensures DecodeLines(lines, n).Success? <==> AllBinary(lines, n) && WidthsAgree(lines, n)
    ensures DecodeLines(lines, n).Success? ==>
              DecodedPrefix(lines, n, DecodeLines(lines, n).value.0, DecodeLines(lines, n).value.1)
    ensures DecodeLines(lines, n).Failure? ==>
              exists j :: 0 <= j < n && AllBinary(lines, j) && WidthsAgree(lines, j)
                          && FailsAt(lines, j, DecodeLines(lines, n).error)
  {
    if n == 0 {
      assert DecodeLines(lines, 0) == Success((0, []));
    } else {
      DecodeLinesSpec(lines, n - 1);
      assert DecodeLinesMeaning(lines, n - 1);
      var r := DecodeLines(lines, n - 1);
      if r.Success? {
        DecodeLinesAccept(lines, n - 1, r.value.0, r.value.1);
      } else {
        DecodeLinesKeepFailure(lines, n - 1);
      }
      assert DecodeLinesMeaning(lines, n);
    }
  }

  /** One more line after an accepted prefix: the meaning carries over to n + 1 lines. */
  lemma DecodeLinesAccept(lines: seq<string>, m: int, width: int, rows: Cells)
    requires 0 <= m < |lines| && DecodeLines(lines, m) == Success((width, rows))
    requires AllBinary(lines, m) && WidthsAgree(lines, m) && DecodedPrefix(lines, m, width, rows)
    ensures DecodeLinesMeaning(lines, m + 1)
  {
    var n := m + 1;
    var t := TrimSpace(lines[m]);
    DecodeLinesNext(lines, m, width, rows);
    assert LineWidth(lines, m) == ByteLen(t);
    AcceptedPrefix(lines, m, n);
    WidthsAgreeExtend(lines, m, width, rows);
    if width != 0 && width != LineWidth(lines, m) {
      assert DecodeLines(lines, n) == Failure(WidthMismatch);
      assert FailsAt(lines, m, WidthMismatch);
    } else if !IsBinary(t) {
      assert DecodeLines(lines, n) == Failure(InvalidCharacter);
      assert FailsAt(lines, m, InvalidCharacter);
    } else {
      DecodedPrefixExtend(lines, m, width, rows);
      assert DecodeLines(lines, n) ==
             Success((if width == 0 then LineWidth(lines, m) else width, rows + [Bits(t)]));
    }
  }

  /** One more line after a failure: the failure, and its meaning, stay as they were. */
  lemma DecodeLinesKeepFailure(lines: seq<string>, m: int)
    requires 0 <= m < |lines| && DecodeLines(lines, m).Failure? && DecodeLinesMeaning(lines, m)
    ensures DecodeLinesMeaning(lines, m + 1)
  {
    assert DecodeLines(lines, m + 1) == DecodeLines(lines, m);
    AcceptedPrefix(lines, m, m + 1);
    var j :| 0 <= j < m && AllBinary(lines, j) && WidthsAgree(lines, j)
             && FailsAt(lines, j, DecodeLines(lines, m).error);
    assert 0 <= j < m + 1;
  }

  /** The decoder stops at no more than one line and for no more than one reason. */
  lemma FailsAtUnique(lines: seq<string>, j: int, e: LoadError, j': int, e': LoadError)
    requires 0 <= j < |lines| && AllBinary(lines, j) && WidthsAgree(lines, j) && FailsAt(lines, j, e)
    requires 0 <= j' < |lines| && AllBinary(lines, j') && WidthsAgree(lines, j') && FailsAt(lines, j', e')
    ensures j == j' && e == e'
  {
    if j < j' {
      AcceptedPrefix(lines, j + 1, j');
    } else if j' < j {
      AcceptedPrefix(lines, j' + 1, j);
    }
  }

  /** Once the decoder stops at line j with e, it reports e however many lines follow. */
  lemma {:induction false} DecodeLinesFailsAt(lines: seq<string>, j: int, e: LoadError, n: int)
    requires 0 <= j < n <= |lines|
    requires AllBinary(lines, j) && WidthsAgree(lines, j) && FailsAt(lines, j, e)
    ensures DecodeLines(lines, n) == Failure(e)
  {
    if n == j + 1 {
      DecodeLinesSpec(lines, n);
      assert !(AllBinary(lines, n) && WidthsAgree(lines, n));
      var e' := DecodeLines(lines, n).error;
      var j' :| 0 <= j' < n && AllBinary(lines, j') && WidthsAgree(lines, j') && FailsAt(lines, j', e');
      FailsAtUnique(lines, j, e, j', e');
    } else {
      DecodeLinesFailsAt(lines, j, e, n - 1);
    }
  }

  /** An error stops the decoder: the lines after it change nothing. */
  lemma {:induction false} FailureIsFinal(lines: seq<string>, m: int, n: int)
    requires 0 <= m <= n <= |lines| && DecodeLines(lines, m).Failure?
    ensures DecodeLines(lines, n) == DecodeLines(lines, m)
  {
    if m < n {
      FailureIsFinal(lines, m, n - 1);
    }
  }

  /** A load succeeds exactly when every trimmed line is binary and the widths agree. */
  lemma DecodeSucceeds(lines: seq<string>)
    ensures Decode(lines).Success? <==> AllBinary(lines, |lines|) && WidthsAgree(lines, |lines|)
  {
    DecodeLinesSpec(lines, |lines|);
  }

  /**
   * A successful load has one row per line, each the line's cells, and the
   * width of the non-blank lines (0 when every line is blank).
   */
  lemma DecodeContents(lines: seq<string>, g: Loaded)
    requires Decode(lines) == Success(g)
    ensures g.height == |lines| == |g.cells|
    ensures forall i :: 0 <= i < |lines| ==> g.cells[i] == Bits(TrimSpace(lines[i]))
    ensures forall i :: 0 <= i < |lines| && TrimSpace(lines[i]) != [] ==> g.width == |TrimSpace(lines[i])|
    ensures (forall i :: 0 <= i < |lines| ==> TrimSpace(lines[i]) == []) ==> g.width == 0
  {
    DecodeLinesSpec(lines, |lines|);
    forall i | 0 <= i < |lines|
      ensures LineWidth(lines, i) == |TrimSpace(lines[i])|
    {
      BinaryByteLen(TrimSpace(lines[i]));
    }
  }

  /**
   * A load fails with e exactly when some line j is the first the decoder
   * cannot accept and e is what goes wrong there: a length other than the
   * established width (WidthMismatch), or else a character other than '0'
   * and '1' (InvalidCharacter).
   */
  lemma DecodeFails(lines: seq<string>, e: LoadError)
    ensures Decode(lines) == Failure(e) <==>
            exists j :: 0 <= j < |lines| && AllBinary(lines, j) && WidthsAgree(lines, j) && FailsAt(lines, j, e)
  {
    DecodeLinesSpec(lines, |lines|);
    if j :| 0 <= j < |lines| && AllBinary(lines, j) && WidthsAgree(lines, j) && FailsAt(lines, j, e) {
      DecodeLinesFailsAt(lines, j, e, |lines|);
    }
  }

  /**
   * A successful load gives a proper height x width grid exactly when the
   * lines are all blank or none is blank; a blank line before the first
   * non-blank one leaves an empty row among full ones.
   */
  lemma DecodeIsGrid(lines: seq<string>, g: Loaded)
    requires Decode(lines) == Success(g)
    ensures IsGrid(g.cells, g.height, g.width) <==>
              (forall i :: 0 <= i < |lines| ==> TrimSpace(lines[i]) != [])
              || (forall i :: 0 <= i < |lines| ==> TrimSpace(lines[i]) == [])
  {
    DecodeContents(lines, g);
    if i, j :| 0 <= i < |lines| && 0 <= j < |lines| && TrimSpace(lines[i]) == [] && TrimSpace(lines[j]) != [] {
      assert |g.cells[i]| != g.width;
    }
  }

  /** Two lines of lengths 4 and 5: the width established by the first rejects the second. */
  lemma WidthMismatchExample()
    ensures Decode(["0101", "01010"]) == Failure(WidthMismatch)
  {
    var lines := ["0101", "01010"];
    TrimSpaceUnchanged(lines[0]);
    TrimSpaceUnchanged(lines[1]);
    ByteLenSpec(lines[0]);
    ByteLenSpec(lines[1]);
    assert LineWidth(lines, 0) == 4 && LineWidth(lines, 1) == 5;
    assert IsBinary(lines[0]);
    assert AllBinary(lines, 1) && WidthsAgree(lines, 1);
    assert FailsAt(lines, 1, WidthMismatch);
    DecodeFails(lines, WidthMismatch);
  }

  /** A character other than '0' and '1' is rejected. */
  lemma InvalidCharacterExample()
    ensures Decode(["01x1"]) == Failure(InvalidCharacter)
  {
    var lines := ["01x1"];
    TrimSpaceUnchanged(lines[0]);
    assert !IsBinary(lines[0]) by { assert lines[0][2] == 'x'; }
    assert FailsAt(lines, 0, InvalidCharacter);
    DecodeFails(lines, InvalidCharacter);
  }

  /**
   * Blank lines before the first non-blank one are kept as empty rows, so a
   * successful load can leave rows of different lengths.
   */
  lemma LeadingBlankLineExample()
    ensures Decode(["", "01"]) == Success(Loaded(2, 2, [[], [false, true]]))
  {
    var lines := ["", "01"];
    TrimSpaceUnchanged(lines[0]);
    TrimSpaceUnchanged(lines[1]);
    ByteLenSpec(lines[1]);
    assert LineWidth(lines, 0) == 0 && LineWidth(lines, 1) == 2;
    assert IsBinary(lines[1]);
    assert AllBinary(lines, 2) && WidthsAgree(lines, 2);
    DecodeSucceeds(lines);
    var g := Decode(lines).value;
    DecodeContents(lines, g);
    assert g.cells[1] == Bits(lines[1]) == [false, true];
    assert g.cells == [[], [false, true]];
  }

  // ---------------------------------------------------------------------------
  // Round trip
  // ---------------------------------------------------------------------------

  function RowTexts(c: Cells, n: int): (ts: seq<string>)
    requires 0 <= n <= |c|
  {
    seq(n, i requires 0 <= i < n => RowText(c[i]))
  }

  /** The text of the rows before row n < |c| splits back into those rows' texts. */
  lemma {:induction false} SplitEncodeRows(c: Cells, n: int, rest: string)
    requires 0 <= n < |c|
    ensures Split(EncodeRows(c, n) + rest) == RowTexts(c, n) + Split(rest)
  {
    if n > 0 {
      var t := RowText(c[n - 1]);
      assert '\n' !in t;
      assert EncodeRows(c, n) + rest == EncodeRows(c, n - 1) + (t + "\n" + rest);
      SplitEncodeRows(c, n - 1, t + "\n" + rest);
      SplitNewline(t, rest);
      assert RowTexts(c, n) == RowTexts(c, n - 1) + [t];
    } else {
      assert EncodeRows(c, n) + rest == rest;
    }
  }

  /** The scanner gives back exactly the row texts of an encoded grid whose last row is not empty. */
  lemma ScanLinesEncode(c: Cells)
    requires |c| >= 1 && |c[|c| - 1]| >= 1
    ensures ScanLines(Encode(c)) == RowTexts(c, |c|)
  {
    var n := |c| - 1;
    var t := RowText(c[n]);
    assert Encode(c) == EncodeRows(c, n) + t;
    SplitEncodeRows(c, n, t);
    assert '\n' !in t;
    SplitNoNewline(t);
    var parts := Split(Encode(c));
    assert parts == RowTexts(c, |c|);
    assert parts[|parts| - 1] == t != [];
    forall i | 0 <= i < |parts|
      ensures DropCR(parts[i]) == parts[i]
    {
    }
  }

  /**
   * Saving a grid with at least one row and one column and loading the
   * text back gives the same height, width and cells.
   */
  lemma RoundTrip(c: Cells, h: int, w: int)
    requires IsGrid(c, h, w) && h >= 1 && w >= 1
    ensures Load(Encode(c)) == Success(Loaded(h, w, c))
  {
    ScanLinesEncode(c);
    var lines := RowTexts(c, h);
    forall i | 0 <= i < h
      ensures TrimSpace(lines[i]) == lines[i]
      ensures IsBinary(lines[i]) && LineWidth(lines, i) == w
      ensures Bits(lines[i]) == c[i]
    {
      TrimSpaceUnchanged(lines[i]);
      BinaryByteLen(lines[i]);
    }
    DecodeSucceeds(lines);
    var g := Decode(lines).value;
    DecodeContents(lines, g);
    assert g.cells == c;
  }

  /**
   * Re-saving a freshly loaded file gives back its text byte for byte
   * when the text is one SaveState wrote, of a grid with at least one row
   * and one column.
   */
  lemma ResaveCanonical(t: string, c: Cells, h: int, w: int)
    requires IsGrid(c, h, w) && h >= 1 && w >= 1 && t == Encode(c)
    ensures Load(t).Success? && Encode(Load(t).value.cells) == t
  {
    RoundTrip(c, h, w);
  }

  /**
   * Load accepts texts SaveState never writes: "01\n" loads as the one-row
   * grid that saves as "01", so its re-save is not byte-identical.
   */
  lemma TrailingNewlineNotResaved(t: string, c: Cells)
    requires t == "01\n" && c == [[false, true]]
    ensures Load(t) == Success(Loaded(1, 2, c))
    ensures Encode(Load(t).value.cells) == "01" != t
  {
    assert RowText(c[0]) == "01";
    assert Encode(c) == EncodeRows(c, 0) + RowText(c[0]) + "";
    SplitNewline("01", "");
    assert "01" + "\n" + "" == t;
    assert Split("") == [""];
    assert Split(t) == ["01", ""];
    SplitNoNewline("01");
    assert Encode(c) == "01" && Split(Encode(c)) == ["01"];
    assert DropCR("01") == "01";
    assert ScanLines(t) == ["01"] == ScanLines(Encode(c));
    RoundTrip(c, 1, 2);
  }
}
