/** `parse_claim`: reading `#<id> @ <x>,<y>: <width>x<height>` into a claim.
    Where the Rust code would panic (a missing piece, a slice past the end,
    an `unwrap` of a failed parse) the model answers `None`. */
module ClaimParser {
  import opened Options
  import opened Text
  import opened Fabric

  /** Parses every piece; one failure fails all, as `map(unwrap).collect()` does. */
  function ParseAll(pieces: seq<string>): (r: Option<seq<int>>)
    ensures r.Some? ==> |r.value| == |pieces|
    ensures r.Some? <==> forall k :: 0 <= k < |pieces| ==> ParseSigned(pieces[k]).Some?
    ensures r.Some? ==> forall k :: 0 <= k < |pieces| ==> r.value[k] == ParseSigned(pieces[k]).value
  {
    if pieces == [] then Some([])
    else
      var head, tail := ParseSigned(pieces[0]), ParseAll(pieces[1..]);
      if head.Some? && tail.Some? then Some([head.value] + tail.value) else None
  }

  /** The words are split on single spaces. The id is word 0 without its
      first character; the coordinates are word 2 without its last character,
      split on commas; the sides are word 3, split on `x`. Word 1 and any
      words after word 3 are ignored. Every comma-separated and
      `x`-separated piece must be a number, but only the first two of each
      are used. */
  function ParseClaim(line: string): (r: Option<Claim>)
    ensures r.Some? ==>
      var words := Split(line, ' ');
      && |words| >= 4 && |words[0]| >= 1 && |words[2]| >= 1
      && var coords, sides := Split(words[2][..|words[2]| - 1], ','), Split(words[3], 'x');
      && |coords| >= 2 && |sides| >= 2
      && ParseSigned(words[0][1..]).Some? && r.value.id == ParseSigned(words[0][1..]).value
      && ParseSigned(coords[0]).Some? && r.value.x == ParseSigned(coords[0]).value
      && ParseSigned(coords[1]).Some? && r.value.y == ParseSigned(coords[1]).value
      && ParseSigned(sides[0]).Some? && r.value.width == ParseSigned(sides[0]).value
      && ParseSigned(sides[1]).Some? && r.value.height == ParseSigned(sides[1]).value
  {
    var words := Split(line, ' ');
    if |words| < 4 || |words[0]| < 1 || |words[2]| < 1 then None
    else
      var id := ParseSigned(words[0][1..]);
      var coords := ParseAll(Split(words[2][..|words[2]| - 1], ','));
      var sides := ParseAll(Split(words[3], 'x'));
      if id.None? || coords.None? || sides.None? || |coords.value| < 2 || |sides.value| < 2 then None
      else Some(Claim(id.value, coords.value[0], coords.value[1], sides.value[0], sides.value[1]))
  }

  /** The four words of the textual form of a claim with non-negative
      fields: `#id`, `@`, `x,y:` and `wxh`. */
  function Words(c: Claim): seq<string>
    requires c.id >= 0 && c.x >= 0 && c.y >= 0 && c.width >= 0 && c.height >= 0
  {
    ["#" + Digits(c.id), "@", Digits(c.x) + "," + Digits(c.y) + ":", Digits(c.width) + "x" + Digits(c.height)]
  }

  /** The textual form `#id @ x,y: wxh`: the words joined by single spaces. */
  function Format(c: Claim): string
    requires c.id >= 0 && c.x >= 0 && c.y >= 0 && c.width >= 0 && c.height >= 0
  {
    Join(Words(c), ' ')
  }

  lemma DigitsHaveNo(n: nat, sep: char)
    requires !IsDigit(sep)
    ensures sep !in Digits(n)
  {
    var d := Digits(n);
    forall k | 0 <= k < |d| ensures d[k] != sep {
      assert IsDigit(d[k]);
    }
  }

  /** Two numbers printed with a non-digit between them parse back as a pair. */
  lemma PairParses(a: nat, b: nat, sep: char)
    requires !IsDigit(sep)
    ensures ParseAll(Split(Digits(a) + [sep] + Digits(b), sep)) == Some([a, b])
  {
    DigitsHaveNo(a, sep);
    DigitsHaveNo(b, sep);
    SplitPiece(Digits(a), sep, Digits(b));
    SplitWhole(Digits(b), sep);
    ParseDigits(a);
    ParseDigits(b);
    assert Split(Digits(a) + [sep] + Digits(b), sep) == [Digits(a), Digits(b)];
    var r := ParseAll([Digits(a), Digits(b)]);
    assert r.Some?;
    assert |r.value| == 2 && r.value[0] == a && r.value[1] == b;
    assert r.value == [a, b];
  }

  /** The textual form splits on spaces into the four words the parser reads. */
  lemma FormatWords(c: Claim)
    requires c.id >= 0 && c.x >= 0 && c.y >= 0 && c.width >= 0 && c.height >= 0
    ensures Split(Format(c), ' ') == Words(c)
  {
    DigitsHaveNo(c.id, ' ');
    DigitsHaveNo(c.x, ' ');
    DigitsHaveNo(c.y, ' ');
    DigitsHaveNo(c.width, ' ');
    DigitsHaveNo(c.height, ' ');
    var words := Words(c);
    forall k | 0 <= k < |words| ensures ' ' !in words[k] {}
    SplitJoin(words, ' ');
  }

  /** Parsing the textual form of a claim built from non-negative integers
      gives that claim back. */
  lemma ParseFormat(c: Claim)
    requires c.id >= 0 && c.x >= 0 && c.y >= 0 && c.width >= 0 && c.height >= 0
    ensures ParseClaim(Format(c)) == Some(c)
  {
    var id, x, y, w, h := Digits(c.id), Digits(c.x), Digits(c.y), Digits(c.width), Digits(c.height);
    FormatWords(c);
    assert (x + "," + y + ":")[..|x + "," + y + ":"| - 1] == x + [','] + y;
    PairParses(c.x, c.y, ',');
    assert w + "x" + h == w + ['x'] + h;
    PairParses(c.width, c.height, 'x');
    assert ("#" + id)[1..] == id;
    ParseDigits(c.id);
  }

  /** The first case of the unit test. */
  lemma ParseExample()
    ensures ParseClaim("#123 @ 3,2: 5x4") == Some(Claim(123, 3, 2, 5, 4))
  {
    var c := Claim(123, 3, 2, 5, 4);
    ExampleText();
    ParseFormat(c);
  }

  lemma ExampleText()
    ensures Format(Claim(123, 3, 2, 5, 4)) == "#123 @ 3,2: 5x4"
  {
    var c := Claim(123, 3, 2, 5, 4);
    Digits123();
    assert Digits(3) == "3" && Digits(2) == "2" && Digits(5) == "5" && Digits(4) == "4";
    var ws := ["#123", "@", "3,2:", "5x4"];
    assert "#" + Digits(123) == ws[0];
    assert Digits(3) + "," + Digits(2) + ":" == ws[2];
    assert Digits(5) + "x" + Digits(4) == ws[3];
    assert Words(c) == ws;
    assert ws[1..][1..][1..] == ["5x4"];
    assert Join(ws[1..][1..], ' ') == "3,2: 5x4";
    assert Join(ws[1..], ' ') == "@ 3,2: 5x4";
    assert Join(ws, ' ') == "#123 @ 3,2: 5x4";
  }

  lemma Digits123()
    ensures Digits(123) == "123"
  {
    assert Digits(1) == "1";
    assert Digits(12) == Digits(1) + "2";
  }

  /** A list of pieces the code cannot take two numbers from: fewer than two
      pieces, or a piece that is not a number. */
  predicate BadPieces(pieces: seq<string>)
  {
    |pieces| < 2 || exists k :: 0 <= k < |pieces| && ParseSigned(pieces[k]).None?
  }

  /** The lines on which `parse_claim` panics: fewer than four words, an
      empty word 0 or word 2 (its slice is out of range), an id that is not
      a number, or coordinates or sides that are not two numbers. */
  predicate Malformed(line: string)
  {
    var words := Split(line, ' ');
    || |words| < 4
    || |words[0]| == 0 || |words[2]| == 0
    || ParseSigned(words[0][1..]).None?
    || BadPieces(Split(words[2][..|words[2]| - 1], ','))
    || BadPieces(Split(words[3], 'x'))
  }

  /** A line is rejected exactly when it is malformed. */
  lemma ParseClaimFails(line: string)
    ensures ParseClaim(line).None? <==> Malformed(line)
  {
  }

  /** A line with fewer than four words is rejected, where the code indexes
      past the end of the word list. */
  lemma ShortLineFails(line: string)
    requires |Split(line, ' ')| < 4
    ensures ParseClaim(line) == None
  {
  }
}
