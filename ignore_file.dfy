/**
 * The `.gitignore` update of `createDefaultConfig` (src/utils/config.ts): the
 * test whether the config file is already listed, and the text appended when
 * it is not.
 */
module IgnoreFile {
  import opened JsString

  const IgnoreEntry: string := "commitail.config.json"

  function Init(lines: seq<string>): seq<string>
    requires |lines| >= 1
  {
    lines[..|lines| - 1]
  }

  function Last(lines: seq<string>): string
    requires |lines| >= 1
  {
    lines[|lines| - 1]
  }

  // ---- Splitting into lines ----

  /**
   * The pieces between the newlines of `s`, built from the end: a newline
   * opens a new, empty piece, any other character extends the last piece.
   */
  function Pieces(s: string): (ps: seq<string>)
    ensures |ps| >= 1
    decreases |s|
  {
    if s == [] then [""]
    else
      var ps := Pieces(s[..|s| - 1]);
      if s[|s| - 1] == '\n' then ps + [""] else Init(ps) + [Last(ps) + [s[|s| - 1]]]
  }

  /** The pieces put back together, one newline between neighbours. */
  function JoinPieces(ps: seq<string>): string
    requires |ps| >= 1
    decreases |ps|
  {
    if |ps| == 1 then ps[0] else JoinPieces(Init(ps)) + "\n" + Last(ps)
  }

  predicate NewlineFree(ps: seq<string>) {
    forall i :: 0 <= i < |ps| ==> '\n' !in ps[i]
  }

  /** `Pieces` is a split at every newline: no piece holds one, and joining them gives `s` back. */
  lemma {:induction false} PiecesJoin(s: string)
    ensures NewlineFree(Pieces(s))
    ensures JoinPieces(Pieces(s)) == s
    decreases |s|
  {
    if s != [] {
      var y := s[..|s| - 1];
      var c := s[|s| - 1];
      PiecesJoin(y);
      var ps := Pieces(y);
      assert s == y + [c];
      if c == '\n' {
        assert Init(ps + [""]) == ps;
      } else if |ps| == 1 {
        assert Pieces(s) == [ps[0] + [c]];
      } else {
        var qs := Init(ps) + [Last(ps) + [c]];
        assert Init(qs) == Init(ps);
        assert JoinPieces(ps) == JoinPieces(Init(ps)) + "\n" + Last(ps);
      }
    }
  }

  /** One more character: a newline opens an empty piece, any other extends the last one. */
  lemma PiecesSnoc(s: string, c: char)
    ensures Pieces(s + [c]) == if c == '\n' then Pieces(s) + [""] else Init(Pieces(s)) + [Last(Pieces(s)) + [c]]
  {
    assert (s + [c])[..|s|] == s;
  }

  /** Splitting off the last element of a non-empty sequence and putting it back. */
  lemma InitLastSnoc(ps: seq<string>, p: string)
    ensures Init(ps + [p]) == ps && Last(ps + [p]) == p
  {
  }

  lemma InitLastJoin(ps: seq<string>)
    requires |ps| >= 1
    ensures Init(ps) + [Last(ps)] == ps
  {
  }

  /** `a + t` is `a + t'` followed by the last character of `t`. */
  lemma AppendSnoc(a: string, t: string)
    requires t != []
    ensures a + t == (a + t[..|t| - 1]) + [t[|t| - 1]]
  {
    assert t == t[..|t| - 1] + [t[|t| - 1]];
  }

  /** A text without a newline: neither its last character nor the rest is one. */
  lemma NewlineFreeSplit(t: string)
    requires t != [] && '\n' !in t
    ensures t[|t| - 1] != '\n' && '\n' !in t[..|t| - 1]
  {
    assert t[|t| - 1] in t;
    assert forall k :: 0 <= k < |t| - 1 ==> t[..|t| - 1][k] == t[k];
  }

  /** Appending text without a newline extends the last piece only. */
  lemma {:induction false} PiecesAppendPlain(s: string, t: string)
    requires '\n' !in t
    ensures Pieces(s + t) == Init(Pieces(s)) + [Last(Pieces(s)) + t]
    decreases |t|
  {
    var ps := Pieces(s);
    if t == [] {
      assert s + t == s;
      assert Last(ps) + t == Last(ps);
      InitLastJoin(ps);
    } else {
      var t', c := t[..|t| - 1], t[|t| - 1];
      NewlineFreeSplit(t);
      PiecesAppendPlain(s, t');
      AppendSnoc(s, t);
      AppendSnoc(Last(ps), t);
      PiecesSnoc(s + t', c);
      InitLastSnoc(Init(ps), Last(ps) + t');
    }
  }

  lemma PiecesAppendNewline(s: string)
    ensures Pieces(s + "\n") == Pieces(s) + [""]
  {
    assert (s + "\n")[..|s|] == s;
  }

  /** A piece without the `\r` of a `\r\n` separator. */
  function DropCarriageReturn(piece: string): string {
    if |piece| > 0 && piece[|piece| - 1] == '\r' then piece[..|piece| - 1] else piece
  }

  /**
   * `content.split(/\r?\n/)`: the pieces between newlines, each but the last
   * without the `\r` that belonged to its separator.
   */
  function SplitLines(content: string): seq<string> {
    var ps := Pieces(content);
    seq(|ps|, i requires 0 <= i < |ps| => if i < |ps| - 1 then DropCarriageReturn(ps[i]) else ps[i])
  }

  /** The lines, read off piece by piece. */
  lemma SplitLinesOfPieces(content: string)
    ensures |SplitLines(content)| == |Pieces(content)| >= 1
    ensures forall i :: 0 <= i < |Pieces(content)| - 1 ==> SplitLines(content)[i] == DropCarriageReturn(Pieces(content)[i])
    ensures SplitLines(content)[|Pieces(content)| - 1] == Last(Pieces(content))
  {
  }

  // ---- The presence test ----

  /** A line that lists the config file, bare or anchored at the root. */
  predicate IsEntryLine(line: string) {
    Trim(line) == IgnoreEntry || Trim(line) == "/" + IgnoreEntry
  }

  /** `hasEntry`: some line of the file lists the config file. */
  predicate HasEntry(content: string) {
    var lines := SplitLines(content);
    exists i :: 0 <= i < |lines| && IsEntryLine(lines[i])
  }

  /** Dropping a trailing `\r` never changes whether a line lists the entry. */
  lemma EntryLineIgnoresCarriageReturn(piece: string)
    ensures IsEntryLine(DropCarriageReturn(piece)) <==> IsEntryLine(piece)
  {
    if |piece| > 0 && piece[|piece| - 1] == '\r' {
      var y := piece[..|piece| - 1];
      assert piece == y + ['\r'];
      TrimAppendWhitespace(y, '\r');
    }
  }

  /** Line by line, the presence test sees the same on a line as on its piece. */
  lemma LinesAgreeWithPieces(content: string)
    ensures forall i :: 0 <= i < |Pieces(content)| ==>
              (IsEntryLine(SplitLines(content)[i]) <==> IsEntryLine(Pieces(content)[i]))
  {
    var ps := Pieces(content);
    var lines := SplitLines(content);
    SplitLinesOfPieces(content);
    forall i | 0 <= i < |ps|
      ensures IsEntryLine(lines[i]) <==> IsEntryLine(ps[i])
    {
      EntryLineIgnoresCarriageReturn(ps[i]);
    }
  }

  /** Whether a separator was `\n` or `\r\n` does not matter to the presence test. */
  lemma HasEntryByPieces(content: string)
    ensures HasEntry(content) <==> exists i :: 0 <= i < |Pieces(content)| && IsEntryLine(Pieces(content)[i])
  {
    EntryLineFromPiece(content);
    EntryPieceFromLine(content);
  }

  lemma EntryPieceFromLine(content: string)
    ensures HasEntry(content) ==> exists i :: 0 <= i < |Pieces(content)| && IsEntryLine(Pieces(content)[i])
  {
    LinesAgreeWithPieces(content);
  }

  lemma EntryLineFromPiece(content: string)
    ensures (exists i :: 0 <= i < |Pieces(content)| && IsEntryLine(Pieces(content)[i])) ==> HasEntry(content)
  {
    LinesAgreeWithPieces(content);
  }

  // ---- The update ----

  /** A newline first, unless the file is empty or already ends with one. */
  function PrefixNewline(content: string): string {
    if content == "" || EndsWith(content, "\n") then "" else "\n"
  }

  /** The text handed to `appendFileSync`. */
  function AppendedText(content: string): (r: string)
    ensures content == "" || EndsWith(content, "\n") ==> r == IgnoreEntry + "\n"
    ensures content != "" && !EndsWith(content, "\n") ==> r == "\n" + IgnoreEntry + "\n"
  {
    PrefixNewline(content) + IgnoreEntry + "\n"
  }

  /** The file's content once the update has run (and its I/O succeeded). */
  function UpdatedContent(content: string): (r: string)
    ensures content <= r
    ensures HasEntry(content) ==> r == content
    ensures !HasEntry(content) ==> r == content + AppendedText(content)
  {
    if HasEntry(content) then content else content + AppendedText(content)
  }

  /** The old pieces, less the empty one after a final newline (or of an empty file). */
  function KeptPieces(content: string): seq<string> {
    if PrefixNewline(content) == "" then Init(Pieces(content)) else Pieces(content)
  }

  /** Once the separating newline is in place, the last piece is empty. */
  lemma PiecesBeforeEntry(content: string)
    ensures Pieces(content + PrefixNewline(content)) == KeptPieces(content) + [""]
  {
    if content == "" {
    } else if EndsWith(content, "\n") {
      var y := content[..|content| - 1];
      assert content[|content| - 1] == '\n' by {
        assert content[|content| - 1..] == "\n";
      }
      assert content + PrefixNewline(content) == content;
      assert Pieces(content) == Pieces(y) + [""];
      assert Init(Pieces(y) + [""]) == Pieces(y);
    } else {
      PiecesAppendNewline(content);
    }
  }

  lemma EntryIsPlain()
    ensures '\n' !in IgnoreEntry && NoEdgeWhitespace(IgnoreEntry)
  {
  }

  /** A line and a newline appended after a final newline become the last two pieces. */
  lemma PiecesAfterLine(b: string, kept: seq<string>, line: string)
    requires Pieces(b) == kept + [""]
    requires '\n' !in line
    ensures Pieces(b + line + "\n") == kept + [line, ""]
  {
    var m := b + line;
    assert Pieces(m) == kept + [line] by {
      PiecesAppendPlain(b, line);
      assert Init(kept + [""]) == kept && Last(kept + [""]) == "";
      assert "" + line == line;
    }
    PiecesAppendNewline(m);
    assert kept + [line] + [""] == kept + [line, ""];
  }

  /** The pieces after the append: the kept ones, the entry, and the empty piece after it. */
  lemma PiecesOfAppended(content: string)
    ensures Pieces(content + AppendedText(content)) == KeptPieces(content) + [IgnoreEntry, ""]
  {
    var b := content + PrefixNewline(content);
    PiecesBeforeEntry(content);
    EntryIsPlain();
    PiecesAfterLine(b, KeptPieces(content), IgnoreEntry);
    assert content + AppendedText(content) == b + IgnoreEntry + "\n";
  }

  /** The updated file's pieces, when the entry was missing. */
  lemma UpdatedPieces(content: string)
    requires !HasEntry(content)
    ensures Pieces(UpdatedContent(content)) == KeptPieces(content) + [IgnoreEntry, ""]
  {
    PiecesOfAppended(content);
  }

  /** None of the kept pieces lists the entry when the file did not. */
  lemma KeptPiecesHaveNoEntry(content: string)
    requires !HasEntry(content)
    ensures forall i :: 0 <= i < |KeptPieces(content)| ==> !IsEntryLine(KeptPieces(content)[i])
  {
    var ps := Pieces(content);
    EntryLineFromPiece(content);
    assert forall i :: 0 <= i < |ps| ==> !IsEntryLine(ps[i]);
    assert forall i :: 0 <= i < |KeptPieces(content)| ==> KeptPieces(content)[i] == ps[i];
  }

  /**
   * When the config file is not listed yet, the updated file lists it on
   * exactly one line, the second to last (the last is the empty remainder
   * after the final newline), and the lines before it are the old ones.
   */
  lemma UpdateAddsExactlyOneEntry(content: string)
    requires !HasEntry(content)
    ensures var lines := SplitLines(UpdatedContent(content));
            && |lines| == |KeptPieces(content)| + 2
            && lines[|lines| - 2..] == [IgnoreEntry, ""]
            && (forall i :: 0 <= i < |lines| - 2 ==> lines[i] == DropCarriageReturn(KeptPieces(content)[i]))
            && (forall i :: 0 <= i < |lines| ==> (IsEntryLine(lines[i]) <==> i == |lines| - 2))
  {
    var u := UpdatedContent(content);
    var kept := KeptPieces(content);
    UpdatedPieces(content);
    KeptPiecesHaveNoEntry(content);
    var lines := SplitLines(u);
    var ps := Pieces(u);
    SplitLinesOfPieces(u);
    assert ps[|ps| - 2] == IgnoreEntry && ps[|ps| - 1] == "";
    EntryIsPlain();
    TrimOfTrimmed(IgnoreEntry);
    assert IsEntryLine(IgnoreEntry);
    assert !IsEntryLine("") by {
      TrimOfTrimmed("");
    }
    forall i | 0 <= i < |lines| - 2
      ensures lines[i] == DropCarriageReturn(kept[i]) && !IsEntryLine(lines[i])
    {
      assert ps[i] == kept[i];
      EntryLineIgnoresCarriageReturn(kept[i]);
    }
  }

  /** After the update the presence test succeeds. */
  lemma UpdateHasEntry(content: string)
    ensures HasEntry(UpdatedContent(content))
  {
    if !HasEntry(content) {
      UpdateAddsExactlyOneEntry(content);
      var lines := SplitLines(UpdatedContent(content));
      assert IsEntryLine(lines[|lines| - 2]);
    }
  }

  /** Updating twice is updating once. */
  lemma UpdateIdempotent(content: string)
    ensures UpdatedContent(UpdatedContent(content)) == UpdatedContent(content)
  {
    UpdateHasEntry(content);
  }

  // ---- The cases of the `.gitignore` tests ----

  /** A line shorter than the entry never lists it. */
  lemma ShortLineIsNotEntry(line: string)
    requires |line| < |IgnoreEntry|
    ensures !IsEntryLine(line)
  {
    assert |Trim(line)| != |IgnoreEntry| && |Trim(line)| != |"/" + IgnoreEntry|;
  }

  /** No line of a file whose pieces are all shorter than the entry lists it. */
  lemma ShortPiecesHaveNoEntry(content: string)
    requires forall i :: 0 <= i < |Pieces(content)| ==> |Pieces(content)[i]| < |IgnoreEntry|
    ensures !HasEntry(content)
  {
    EntryPieceFromLine(content);
    forall i | 0 <= i < |Pieces(content)|
      ensures !IsEntryLine(Pieces(content)[i])
    {
      ShortLineIsNotEntry(Pieces(content)[i]);
    }
  }

  /** A missing or empty `.gitignore` gets the entry and a newline. */
  lemma UpdateEmptyFile()
    ensures UpdatedContent("") == IgnoreEntry + "\n"
  {
    ShortPiecesHaveNoEntry("");
  }

  /** A `.gitignore` that already lists the entry is left alone. */
  lemma UpdateListedFile()
    ensures UpdatedContent(IgnoreEntry + "\n") == IgnoreEntry + "\n"
  {
    UpdateEmptyFile();
    UpdateHasEntry("");
  }

  const OtherRules: string := "node_modules/\n.env"

  /** The pieces of the other rules are the two rules. */
  lemma OtherRulesPieces()
    ensures Pieces(OtherRules) == ["node_modules/", ".env"]
  {
    var a, b := "node_modules/", ".env";
    assert OtherRules == a + "\n" + b;
    assert '\n' !in a && '\n' !in b;
    assert Pieces(a) == [a] by {
      PiecesAppendPlain("", a);
      assert "" + a == a;
    }
    PiecesAppendNewline(a);
    assert Pieces(a + "\n") == [a, ""];
    PiecesAppendPlain(a + "\n", b);
    assert "" + b == b;
  }

  /** A `.gitignore` with other rules and no final newline gets a newline, the entry and a newline. */
  lemma UpdateFileWithOtherRules()
    ensures UpdatedContent(OtherRules) == OtherRules + "\n" + IgnoreEntry + "\n"
  {
    OtherRulesPieces();
    ShortPiecesHaveNoEntry(OtherRules);
    assert OtherRules[|OtherRules| - 1] == 'v';
  }
}
