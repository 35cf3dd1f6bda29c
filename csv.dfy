/** `parseCsvInput` (src/utils.js:1-6): split on commas, trim each item,
    drop the empty ones. */
module Csv {
  import opened JsText

  /** An item `parseCsvInput` can produce: non-empty, trimmed, comma-free. */
  predicate IsCsvItem(item: string)
  {
    item != [] && Trimmed(item) && ',' !in item
  }

  /** `.map((item) => item.trim())` */
  function TrimEach(xs: seq<string>): (r: seq<string>)
    ensures |r| == |xs| && forall i :: 0 <= i < |xs| ==> r[i] == Trim(xs[i])
  {
    MapEach(Trim, xs)
  }

  /** `xs.map(f)` */
  function MapEach<A, B>(f: A -> B, xs: seq<A>): (r: seq<B>)
    ensures |r| == |xs| && forall i :: 0 <= i < |xs| ==> r[i] == f(xs[i])
  {
    seq(|xs|, i requires 0 <= i < |xs| => f(xs[i]))
  }

  /** `.filter((item) => item !== '')` */
  function DropEmpty(xs: seq<string>): seq<string>
  {
    if xs == [] then []
    else if xs[0] == [] then DropEmpty(xs[1..])
    else [xs[0]] + DropEmpty(xs[1..])
  }

  /** Exactly the non-empty strings survive the filter. */
  lemma {:induction false} DropEmptyMembers(xs: seq<string>, x: string)
    ensures x in DropEmpty(xs) <==> x in xs && x != []
  {
    if xs != [] {
      DropEmptyMembers(xs[1..], x);
      assert xs == [xs[0]] + xs[1..];
    }
  }

  /** Every kept string comes from a non-empty string of the input. */
  lemma {:induction false} DropEmptyIndex(xs: seq<string>, j: nat) returns (k: nat)
    requires j < |DropEmpty(xs)|
    ensures k < |xs| && xs[k] == DropEmpty(xs)[j] && xs[k] != []
  {
    if xs[0] == [] {
      k := DropEmptyIndex(xs[1..], j);
      k := k + 1;
    } else if j == 0 {
      k := 0;
    } else {
      k := DropEmptyIndex(xs[1..], j - 1);
      k := k + 1;
    }
  }

  function ParseCsvInput(valueString: string): (items: seq<string>)
    ensures forall i :: 0 <= i < |items| ==> IsCsvItem(items[i])
  {
    var pieces := Split(valueString, ',');
    TrimmedPiecesAreItems(valueString, pieces);
    DropEmptyItems(TrimEach(pieces));
    DropEmpty(TrimEach(pieces))
  }

  lemma {:induction false} DropEmptyItems(xs: seq<string>)
    requires forall i :: 0 <= i < |xs| && xs[i] != [] ==> IsCsvItem(xs[i])
    ensures forall j :: 0 <= j < |DropEmpty(xs)| ==> IsCsvItem(DropEmpty(xs)[j])
  {
    forall j | 0 <= j < |DropEmpty(xs)|
      ensures IsCsvItem(DropEmpty(xs)[j])
    {
      var k := DropEmptyIndex(xs, j);
    }
  }

  /** The inverse of `parseCsvInput`: items joined with commas. */
  function JoinCsv(items: seq<string>): string
  {
    if items == [] then [] else Join(items, ',')
  }

  lemma {:induction false} TrimmedPiecesAreItems(s: string, pieces: seq<string>)
    requires pieces == Split(s, ',')
    ensures forall i :: 0 <= i < |pieces| && Trim(pieces[i]) != [] ==> IsCsvItem(Trim(pieces[i]))
  {
    forall i | 0 <= i < |pieces| && Trim(pieces[i]) != []
      ensures IsCsvItem(Trim(pieces[i]))
    {
      assert ',' !in pieces[i];
      TrimmedPieceIsItem(pieces[i]);
    }
  }

  /** A comma-free piece that does not trim to nothing trims to an item. */
  lemma {:induction false} TrimmedPieceIsItem(piece: string)
    requires ',' !in piece && Trim(piece) != []
    ensures IsCsvItem(Trim(piece))
  {
    TrimSpec(piece);
  }

  lemma {:induction false} TrimEachConcat(xs: seq<string>, ys: seq<string>)
    ensures TrimEach(xs + ys) == TrimEach(xs) + TrimEach(ys)
  {
    MapEachConcat(Trim, xs, ys);
  }

  /** `map` distributes over concatenation. */
  lemma {:induction false} MapEachConcat<A, B>(f: A -> B, xs: seq<A>, ys: seq<A>)
    ensures MapEach(f, xs + ys) == MapEach(f, xs) + MapEach(f, ys)
  {
    var left, right := MapEach(f, xs + ys), MapEach(f, xs) + MapEach(f, ys);
    forall i | 0 <= i < |left|
      ensures left[i] == right[i]
    {
      if i < |xs| {
        assert (xs + ys)[i] == xs[i];
      } else {
        assert (xs + ys)[i] == ys[i - |xs|];
      }
    }
  }

  lemma {:induction false} DropEmptyConcat(xs: seq<string>, ys: seq<string>)
    ensures DropEmpty(xs + ys) == DropEmpty(xs) + DropEmpty(ys)
  {
    if xs != [] {
      var zs := xs + ys;
      assert zs[0] == xs[0] && zs[1..] == xs[1..] + ys;
      DropEmptyConcat(xs[1..], ys);
      if xs[0] != [] {
        calc {
          DropEmpty(zs);
          [xs[0]] + DropEmpty(xs[1..] + ys);
          [xs[0]] + (DropEmpty(xs[1..]) + DropEmpty(ys));
          ([xs[0]] + DropEmpty(xs[1..])) + DropEmpty(ys);
          DropEmpty(xs) + DropEmpty(ys);
        }
      } else {
        calc {
          DropEmpty(zs);
          DropEmpty(xs[1..] + ys);
          DropEmpty(xs[1..]) + DropEmpty(ys);
          DropEmpty(xs) + DropEmpty(ys);
        }
      }
    } else {
      assert xs + ys == ys;
    }
  }

  /** Items keep input order: the items of `a,b` are those of `a` followed
      by those of `b`. */
  lemma {:induction false} CsvConcat(a: string, b: string)
    ensures ParseCsvInput(a + "," + b) == ParseCsvInput(a) + ParseCsvInput(b)
  {
    SplitConcat(a, ',', b);
    TrimEachConcat(Split(a, ','), Split(b, ','));
    DropEmptyConcat(TrimEach(Split(a, ',')), TrimEach(Split(b, ',')));
  }

  /** Items that `parseCsvInput` could produce come back unchanged from their
      comma-joined text. */
  lemma {:induction false} CsvRoundTrip(items: seq<string>)
    requires forall i :: 0 <= i < |items| ==> IsCsvItem(items[i])
    ensures ParseCsvInput(JoinCsv(items)) == items
  {
    if items != [] {
      SplitJoin(items, ',');
      TrimmedItemsUnchanged(items);
      NonEmptyKept(items);
    }
  }

  /** A comma-free piece yields its trimmed text, or nothing when it is
      blank: " a " gives "a". With `CsvConcat` this fixes the items of every
      input. */
  lemma {:induction false} CsvPiece(piece: string)
    requires ',' !in piece
    ensures ParseCsvInput(piece) == if Trim(piece) == [] then [] else [Trim(piece)]
  {
    SplitFree(piece, ',');
    TrimEachSingle(piece);
    DropEmptySingle(Trim(piece));
  }

  /** Whitespace around the items goes, order stays: " a , b " gives "a"
      and "b". */
  lemma {:induction false} PaddedItemsExample()
    ensures ParseCsvInput(" a , b ") == ["a", "b"]
  {
    PaddedItem('a');
    PaddedItem('b');
    assert " a " + "," + " b " == " a , b ";
    CsvConcat(" a ", " b ");
  }

  /** One letter with a space on each side is the item of that letter. */
  lemma {:induction false} PaddedItem(c: char)
    requires c != ',' && !IsWhitespace(c)
    ensures ParseCsvInput([' ', c, ' ']) == [[c]]
  {
    var pad := " ";
    assert AllWhitespace(pad) by {
      assert pad[0] == ' ';
    }
    TrimPadded(pad, [c], pad);
    assert pad + [c] + pad == [' ', c, ' '];
    CsvPiece([' ', c, ' ']);
  }

  lemma {:induction false} TrimEachSingle(x: string)
    ensures TrimEach([x]) == [Trim(x)]
  {
    MapEachSingle(Trim, x);
  }

  lemma {:induction false} MapEachSingle<A, B>(f: A -> B, x: A)
    ensures MapEach(f, [x]) == [f(x)]
  {
    assert [x][0] == x;
  }

  lemma {:induction false} DropEmptySingle(x: string)
    ensures DropEmpty([x]) == if x == [] then [] else [x]
  {
    assert [x][1..] == [];
    assert [x] + [] == [x];
  }

  lemma {:induction false} TrimmedItemsUnchanged(items: seq<string>)
    requires forall i :: 0 <= i < |items| ==> Trimmed(items[i])
    ensures TrimEach(items) == items
  {
    forall i | 0 <= i < |items|
      ensures TrimEach(items)[i] == items[i]
    {
      TrimOfTrimmed(items[i]);
    }
  }

  lemma {:induction false} NonEmptyKept(items: seq<string>)
    requires forall i :: 0 <= i < |items| ==> items[i] != []
    ensures DropEmpty(items) == items
  {
    if items != [] {
      NonEmptyKept(items[1..]);
    }
  }

  /** The input gives no item exactly when it holds nothing but commas and
      whitespace (the empty string included). */
  lemma {:induction false} CsvBlank(s: string)
    ensures ParseCsvInput(s) == [] <==> forall i :: 0 <= i < |s| ==> s[i] == ',' || IsWhitespace(s[i])
  {
    if ParseCsvInput(s) == [] {
      forall i | 0 <= i < |s|
        ensures s[i] == ',' || IsWhitespace(s[i])
      {
        BlankChar(s, s[i]);
      }
    } else {
      var c := ItemChar(s);
    }
  }

  /** With no item, every character is a comma or whitespace. */
  lemma {:induction false} BlankChar(s: string, c: char)
    requires ParseCsvInput(s) == [] && c in s
    ensures c == ',' || IsWhitespace(c)
  {
    var pieces := Split(s, ',');
    var trimmed := TrimEach(pieces);
    JoinSplit(s, ',');
    JoinChars(pieces, ',', c);
    if c != ',' {
      var k :| 0 <= k < |pieces| && c in pieces[k];
      DropEmptyMembers(trimmed, trimmed[k]);
      TrimSpec(pieces[k]);
      var j :| 0 <= j < |pieces[k]| && pieces[k][j] == c;
    }
  }

  /** An item holds a character that is neither a comma nor whitespace. */
  lemma {:induction false} ItemChar(s: string) returns (c: char)
    requires ParseCsvInput(s) != []
    ensures c in s && c != ',' && !IsWhitespace(c)
  {
    var k := ItemPiece(s);
    var piece := Split(s, ',')[k];
    c := NonBlankChar(piece);
    SplitChars(s, ',', k, c);
  }

  /** Some comma-separated piece trims to an item. */
  lemma {:induction false} ItemPiece(s: string) returns (k: nat)
    requires ParseCsvInput(s) != []
    ensures k < |Split(s, ',')| && Trim(Split(s, ',')[k]) != []
  {
    k := DropEmptyIndex(TrimEach(Split(s, ',')), 0);
  }

  lemma {:induction false} NonBlankChar(piece: string) returns (c: char)
    requires Trim(piece) != []
    ensures c in piece && !IsWhitespace(c)
  {
    TrimSpec(piece);
    var j :| 0 <= j < |piece| && !IsWhitespace(piece[j]);
    c := piece[j];
  }
}
