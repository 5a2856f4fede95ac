/** The row builder of `process_test_emails_from_text`: the input text is
    split on the email separator, each piece is stripped, and every
    non-empty piece's extracted details are flattened into table rows, the
    three list fields padded to a common length. Reading the input file is
    outside the model: the method takes the text. The completion call is a
    parameter `reply` from the piece's position and stripped text to the raw
    reply; the JSON decoder is a parameter `decode`. */
module Batch {
  import opened PyStrings
  import opened Extraction

  /** The literal token that separates emails in the input text. */
  const EMAIL_SEPARATOR: string := "---EMAIL_SEPARATOR---"

  /** One output row: the 1-based email index and the six shipment columns. */
  datatype Row = Row(
    email: nat,
    purchaseOrder: Value,
    partNumber: Value,
    quantity: Value,
    trackingNumber: Value,
    source: Value,
    typeOfEmail: Value)

  /** The row an empty email produces: blank except for its index. */
  function BlankRow(email: nat): Row
  {
    Row(email, BLANK, BLANK, BLANK, BLANK, BLANK, BLANK)
  }

  /** `max(len(po_numbers), len(part_numbers), len(quantities))`. */
  function MaxLen(a: seq<Value>, b: seq<Value>, c: seq<Value>): (m: nat)
    ensures |a| <= m && |b| <= m && |c| <= m
    ensures m == |a| || m == |b| || m == |c|
  {
    if |a| >= |b| && |a| >= |c| then |a|
    else if |b| >= |c| then |b|
    else |c|
  }

  /** `xs + [""] * (n - len(xs))`. */
  function PadTo(xs: seq<Value>, n: nat): (r: seq<Value>)
    requires |xs| <= n
    ensures |r| == n
    ensures r[..|xs|] == xs
    ensures forall k :: |xs| <= k < n ==> r[k] == BLANK
  {
    xs + seq(n - |xs|, _ => BLANK)
  }

  /** The rows of one non-empty email whose details are `d`: one row per
      position of the padded lists, and a single row when all three lists
      are empty. Tracking number, source and type go on the first row only. */
  function DetailRows(email: nat, d: Extracted): (rows: seq<Row>)
    ensures var po, part, qty := ListOr(d.poNumbers), ListOr(d.partNumbers), ListOr(d.quantities);
            var m := MaxLen(po, part, qty);
            && |rows| == (if m == 0 then 1 else m)
            && (forall k :: 0 <= k < |rows| ==> rows[k].email == email)
            && rows[0].trackingNumber == ScalarOr(d.trackingNumber)
            && rows[0].source == ScalarOr(d.source)
            && rows[0].typeOfEmail == ScalarOr(d.typeOfEmail)
            && (forall k :: 1 <= k < |rows| ==>
                  rows[k].trackingNumber == BLANK && rows[k].source == BLANK && rows[k].typeOfEmail == BLANK)
            && (m == 0 ==> rows[0].purchaseOrder == BLANK && rows[0].partNumber == BLANK && rows[0].quantity == BLANK)
            && (forall k :: 0 <= k < m ==>
                  && rows[k].purchaseOrder == PadTo(po, m)[k]
                  && rows[k].partNumber == PadTo(part, m)[k]
                  && rows[k].quantity == PadTo(qty, m)[k])
  {
    var po, part, qty := ListOr(d.poNumbers), ListOr(d.partNumbers), ListOr(d.quantities);
    var m := MaxLen(po, part, qty);
    var tracking, source, kind := ScalarOr(d.trackingNumber), ScalarOr(d.source), ScalarOr(d.typeOfEmail);
    if m == 0 then
      [Row(email, BLANK, BLANK, BLANK, tracking, source, kind)]
    else
      var po', part', qty' := PadTo(po, m), PadTo(part, m), PadTo(qty, m);
      seq(m, k requires 0 <= k < m =>
        Row(email, po'[k], part'[k], qty'[k],
            if k == 0 then tracking else BLANK,
            if k == 0 then source else BLANK,
            if k == 0 then kind else BLANK))
  }

  /** The rows of the piece at 0-based position `i`: a blank row when the
      stripped piece is empty, otherwise the rows of its decoded reply. */
  function PieceRows(i: nat, piece: string, reply: (nat, string) -> string,
                     decode: string -> Option<Extracted>): seq<Row>
  {
    var email := Strip(piece);
    if email == [] then [BlankRow(i + 1)]
    else DetailRows(i + 1, ParseReply(reply(i, email), decode))
  }

  /** `f` applied to every piece together with its 0-based position. */
  function MapIndexed<T>(pieces: seq<string>, f: (nat, string) -> T): seq<T>
  {
    seq(|pieces|, i requires 0 <= i < |pieces| => f(i, pieces[i]))
  }

  /** Mapping a prefix of the pieces gives the same prefix of the mapping. */
  lemma MapIndexedPrefix<T>(pieces: seq<string>, j: nat, f: (nat, string) -> T)
    requires j <= |pieces|
    ensures MapIndexed(pieces[..j], f) == MapIndexed(pieces, f)[..j]
  {
    assert forall i :: 0 <= i < j ==> pieces[..j][i] == pieces[i];
  }

  /** `PieceRows` as a value, for mapping over the pieces. */
  function PieceFn(reply: (nat, string) -> string, decode: string -> Option<Extracted>): (nat, string) -> seq<Row>
  {
    (i: nat, piece: string) => PieceRows(i, piece, reply, decode)
  }

  /** The blocks of rows of the pieces, one block per piece, in order. */
  function PieceBlocks(pieces: seq<string>, reply: (nat, string) -> string,
                       decode: string -> Option<Extracted>): (blocks: seq<seq<Row>>)
    ensures |blocks| == |pieces|
  {
    MapIndexed(pieces, PieceFn(reply, decode))
  }

  /** The blocks concatenated in order. */
  function Flatten(blocks: seq<seq<Row>>): seq<Row>
  {
    if blocks == [] then []
    else Flatten(blocks[..|blocks| - 1]) + blocks[|blocks| - 1]
  }

  /** All rows of the pieces, in order. */
  function BatchRows(pieces: seq<string>, reply: (nat, string) -> string,
                     decode: string -> Option<Extracted>): seq<Row>
  {
    Flatten(PieceBlocks(pieces, reply, decode))
  }

  /** Appends the rows of one non-empty email with details `details`, as
      the script's loop body does: the list fields are read with their
      defaults and padded in place to their common length, then one row is
      appended per position (or a single row when all lists are empty). */
  method AppendShipmentRows(allData: seq<Row>, email: nat, details: Extracted) returns (result: seq<Row>)
    ensures result == allData + DetailRows(email, details)
  {
    result := allData;
    var poNumbers := ListOr(details.poNumbers);
    var partNumbers := ListOr(details.partNumbers);
    var quantities := ListOr(details.quantities);
    var trackingNumber := ScalarOr(details.trackingNumber);
    var source := ScalarOr(details.source);
    var typeOfEmail := ScalarOr(details.typeOfEmail);

    var maxLen := MaxLen(poNumbers, partNumbers, quantities);
    poNumbers := poNumbers + seq(maxLen - |poNumbers|, _ => BLANK);
    partNumbers := partNumbers + seq(maxLen - |partNumbers|, _ => BLANK);
    quantities := quantities + seq(maxLen - |quantities|, _ => BLANK);

    ghost var expected := DetailRows(email, details);
    assert poNumbers == PadTo(ListOr(details.poNumbers), maxLen);
    assert partNumbers == PadTo(ListOr(details.partNumbers), maxLen);
    assert quantities == PadTo(ListOr(details.quantities), maxLen);
    if maxLen == 0 {
      result := result + [Row(email, BLANK, BLANK, BLANK, trackingNumber, source, typeOfEmail)];
    } else {
      assert |expected| == maxLen;
      assert forall k :: 0 <= k < maxLen ==>
        expected[k] == Row(email, poNumbers[k], partNumbers[k], quantities[k],
                           if k == 0 then trackingNumber else BLANK,
                           if k == 0 then source else BLANK,
                           if k == 0 then typeOfEmail else BLANK);
      var idx := 0;
      while idx < maxLen
        invariant 0 <= idx <= maxLen
        invariant result == allData + expected[..idx]
      {
        var row := Row(email, poNumbers[idx], partNumbers[idx], quantities[idx],
                       if idx == 0 then trackingNumber else BLANK,
                       if idx == 0 then source else BLANK,
                       if idx == 0 then typeOfEmail else BLANK);
        assert row == expected[idx];
        assert expected[..idx + 1] == expected[..idx] + [row];
        result := result + [row];
        idx := idx + 1;
      }
      assert expected[..maxLen] == expected;
    }
  }

  /** The body of the script's loop for the email at 0-based position `i`:
      strip it, and either append the rows of its extracted details or, for
      an empty email, one blank row carrying its index. */
  method ProcessEmail(allData: seq<Row>, i: nat, piece: string, reply: (nat, string) -> string,
                      decode: string -> Option<Extracted>) returns (result: seq<Row>)
    ensures result == allData + PieceRows(i, piece, reply, decode)
  {
    var email := Strip(piece);
    if email != [] {
      var details := ParseReply(reply(i, email), decode);
      result := AppendShipmentRows(allData, i + 1, details);
    } else {
      result := allData + [BlankRow(i + 1)];
    }
  }

  /** The rows of `process_test_emails_from_text`, built as the script does:
      one accumulator, appended to email by email in order. */
  method ProcessEmails(text: string, reply: (nat, string) -> string,
                       decode: string -> Option<Extracted>) returns (allData: seq<Row>)
    ensures allData == BatchRows(Split(text, EMAIL_SEPARATOR), reply, decode)
  {
    var emails := Split(text, EMAIL_SEPARATOR);
    allData := [];
    var i := 0;
    while i < |emails|
      invariant 0 <= i <= |emails|
      invariant allData == BatchRows(emails[..i], reply, decode)
    {
      BatchRowsStep(emails, i, reply, decode);
      allData := ProcessEmail(allData, i, emails[i], reply, decode);
      i := i + 1;
    }
    assert emails[..i] == emails;
  }

  /** The number of rows the piece at position `i` yields, counted
      independently of the rows themselves. */
  function ExpectedCount(i: nat, piece: string, reply: (nat, string) -> string,
                         decode: string -> Option<Extracted>): nat
  {
    var email := Strip(piece);
    if email == [] then 1
    else
      var d := ParseReply(reply(i, email), decode);
      var m := MaxLen(ListOr(d.poNumbers), ListOr(d.partNumbers), ListOr(d.quantities));
      if m == 0 then 1 else m
  }

  /** The sum of the per-piece counts. */
  function TotalCount(pieces: seq<string>, reply: (nat, string) -> string,
                      decode: string -> Option<Extracted>): nat
  {
    if pieces == [] then 0
    else
      var n := |pieces| - 1;
      TotalCount(pieces[..n], reply, decode) + ExpectedCount(n, pieces[n], reply, decode)
  }

  /** An empty piece yields exactly one row, blank except for its index. */
  lemma EmptyPieceRow(i: nat, piece: string, reply: (nat, string) -> string,
                      decode: string -> Option<Extracted>)
    requires forall k :: 0 <= k < |piece| ==> IsSpace(piece[k])
    ensures PieceRows(i, piece, reply, decode) == [BlankRow(i + 1)]
  {
    StripEmptyIffBlank(piece);
  }

  /** A reply that does not decode gives the same single blank row as an
      empty piece. */
  lemma {:induction false} UndecodedPieceRow(i: nat, piece: string, reply: (nat, string) -> string,
                                             decode: string -> Option<Extracted>)
    requires Strip(piece) != []
    requires decode(BraceSpan(reply(i, Strip(piece)))).None?
    ensures PieceRows(i, piece, reply, decode) == [BlankRow(i + 1)]
  {
    var rows := PieceRows(i, piece, reply, decode);
    assert rows == DetailRows(i + 1, EMPTY_MAPPING);
    assert |rows| == 1;
  }

  /** Every piece yields its expected number of rows, at least one, all
      carrying the piece's 1-based index. */
  lemma PieceRowsShape(i: nat, piece: string, reply: (nat, string) -> string,
                       decode: string -> Option<Extracted>)
    ensures |PieceRows(i, piece, reply, decode)| == ExpectedCount(i, piece, reply, decode) >= 1
    ensures forall k :: 0 <= k < |PieceRows(i, piece, reply, decode)| ==>
              PieceRows(i, piece, reply, decode)[k].email == i + 1
  {
  }

  /** Block `i` holds rows carrying index `i + 1` only. */
  ghost predicate Indexed(blocks: seq<seq<Row>>)
  {
    forall i, k :: 0 <= i < |blocks| && 0 <= k < |blocks[i]| ==> blocks[i][k].email == i + 1
  }

  /** Flattening one more block appends that block. */
  lemma FlattenSnoc(blocks: seq<seq<Row>>, i: nat)
    requires i < |blocks|
    ensures Flatten(blocks[..i + 1]) == Flatten(blocks[..i]) + blocks[i]
  {
    assert blocks[..i + 1][..i] == blocks[..i];
  }

  /** The flattening of the first `j` blocks is a prefix of the flattening of all. */
  lemma {:induction false} FlattenPrefix(blocks: seq<seq<Row>>, j: nat)
    requires j <= |blocks|
    ensures |Flatten(blocks[..j])| <= |Flatten(blocks)|
    ensures forall k :: 0 <= k < |Flatten(blocks[..j])| ==> Flatten(blocks)[k] == Flatten(blocks[..j])[k]
    decreases |blocks|
  {
    if j < |blocks| {
      var n := |blocks| - 1;
      assert blocks[..n][..j] == blocks[..j];
      FlattenPrefix(blocks[..n], j);
      assert Flatten(blocks) == Flatten(blocks[..n]) + blocks[n];
    } else {
      assert blocks[..j] == blocks;
    }
  }

  /** Flattening indexed blocks gives rows whose indices lie in `1..|blocks|`
      and never decrease. */
  lemma {:induction false} FlattenOrdered(blocks: seq<seq<Row>>)
    requires Indexed(blocks)
    ensures forall k :: 0 <= k < |Flatten(blocks)| ==> 1 <= Flatten(blocks)[k].email <= |blocks|
    ensures forall j, k :: 0 <= j <= k < |Flatten(blocks)| ==> Flatten(blocks)[j].email <= Flatten(blocks)[k].email
    decreases |blocks|
  {
    if blocks != [] {
      var n := |blocks| - 1;
      var front := Flatten(blocks[..n]);
      var last := blocks[n];
      assert Indexed(blocks[..n]);
      FlattenOrdered(blocks[..n]);
      var rows := Flatten(blocks);
      assert rows == front + last;
      assert forall k :: 0 <= k < |last| ==> last[k].email == n + 1;
      forall k | 0 <= k < |rows|
        ensures 1 <= rows[k].email <= |blocks|
        ensures k < |front| ==> rows[k].email <= n
        ensures k >= |front| ==> rows[k].email == n + 1
      {
        if k < |front| {
          assert rows[k] == front[k];
        } else {
          assert rows[k] == last[k - |front|];
        }
      }
    }
  }

  /** In the flattening of indexed blocks, the rows after those of the first
      `j` blocks carry an index above `j`. */
  lemma {:induction false} FlattenLater(blocks: seq<seq<Row>>, j: nat)
    requires Indexed(blocks) && j <= |blocks|
    ensures forall k :: |Flatten(blocks[..j])| <= k < |Flatten(blocks)| ==> Flatten(blocks)[k].email > j
    decreases |blocks|
  {
    if j < |blocks| {
      var n := |blocks| - 1;
      assert blocks[..n][..j] == blocks[..j];
      assert Indexed(blocks[..n]);
      FlattenLater(blocks[..n], j);
      var front := Flatten(blocks[..n]);
      var last := blocks[n];
      assert forall k :: 0 <= k < |last| ==> last[k].email == n + 1;
      var rows := Flatten(blocks);
      assert rows == front + last;
      forall k | |Flatten(blocks[..j])| <= k < |rows| ensures rows[k].email > j {
        if k < |front| {
          assert rows[k] == front[k];
        } else {
          assert rows[k] == last[k - |front|];
        }
      }
    } else {
      assert blocks[..j] == blocks;
    }
  }

  /** The blocks of the first `j` pieces are the first `j` blocks. */
  lemma PieceBlocksPrefix(pieces: seq<string>, j: nat, reply: (nat, string) -> string,
                          decode: string -> Option<Extracted>)
    requires j <= |pieces|
    ensures PieceBlocks(pieces[..j], reply, decode) == PieceBlocks(pieces, reply, decode)[..j]
  {
    MapIndexedPrefix(pieces, j, PieceFn(reply, decode));
  }

  /** Block `i` is the rows of piece `i`. */
  lemma PieceBlocksAt(pieces: seq<string>, i: nat, reply: (nat, string) -> string,
                      decode: string -> Option<Extracted>)
    requires i < |pieces|
    ensures PieceBlocks(pieces, reply, decode)[i] == PieceRows(i, pieces[i], reply, decode)
  {
  }

  /** The blocks of the pieces are indexed by position. */
  lemma PieceBlocksIndexed(pieces: seq<string>, reply: (nat, string) -> string,
                           decode: string -> Option<Extracted>)
    ensures Indexed(PieceBlocks(pieces, reply, decode))
  {
    var blocks: seq<seq<Row>> := PieceBlocks(pieces, reply, decode);
    forall i: nat, k: nat | i < |blocks| && k < |blocks[i]| ensures blocks[i][k].email == i + 1 {
      PieceBlocksAt(pieces, i, reply, decode);
      PieceRowsShape(i, pieces[i], reply, decode);
    }
  }

  /** The rows of a batch are the rows of all pieces but the last, followed
      by the rows of the last piece. */
  lemma BatchRowsSnoc(pieces: seq<string>, reply: (nat, string) -> string,
                      decode: string -> Option<Extracted>)
    requires pieces != []
    ensures var n := |pieces| - 1;
            BatchRows(pieces, reply, decode)
            == BatchRows(pieces[..n], reply, decode) + PieceRows(n, pieces[n], reply, decode)
  {
    PieceBlocksPrefix(pieces, |pieces| - 1, reply, decode);
  }

  /** Processing piece `i` after the pieces before it extends their rows by
      the rows of piece `i`. */
  lemma BatchRowsStep(pieces: seq<string>, i: nat, reply: (nat, string) -> string,
                      decode: string -> Option<Extracted>)
    requires i < |pieces|
    ensures BatchRows(pieces[..i + 1], reply, decode)
            == BatchRows(pieces[..i], reply, decode) + PieceRows(i, pieces[i], reply, decode)
  {
    var front := pieces[..i + 1];
    assert front[..i] == pieces[..i] && front[i] == pieces[i];
    BatchRowsSnoc(front, reply, decode);
  }

  /** The batch has the sum of the expected per-piece counts as its number
      of rows, so at least one row per piece. */
  lemma {:induction false} BatchRowsCount(pieces: seq<string>, reply: (nat, string) -> string,
                                          decode: string -> Option<Extracted>)
    ensures |BatchRows(pieces, reply, decode)| == TotalCount(pieces, reply, decode)
    ensures |BatchRows(pieces, reply, decode)| >= |pieces|
    decreases |pieces|
  {
    if pieces != [] {
      var n := |pieces| - 1;
      BatchRowsCount(pieces[..n], reply, decode);
      BatchRowsSnoc(pieces, reply, decode);
      PieceRowsShape(n, pieces[n], reply, decode);
    }
  }

  /** Every row carries the 1-based index of a piece, and the indices never
      decrease along the rows. */
  lemma BatchRowsOrdered(pieces: seq<string>, reply: (nat, string) -> string,
                         decode: string -> Option<Extracted>)
    ensures forall k :: 0 <= k < |BatchRows(pieces, reply, decode)| ==>
              1 <= BatchRows(pieces, reply, decode)[k].email <= |pieces|
    ensures forall j, k :: 0 <= j <= k < |BatchRows(pieces, reply, decode)| ==>
              BatchRows(pieces, reply, decode)[j].email <= BatchRows(pieces, reply, decode)[k].email
  {
    PieceBlocksIndexed(pieces, reply, decode);
    FlattenOrdered(PieceBlocks(pieces, reply, decode));
  }

  /** In the flattening, block `i` stands right after the blocks before it. */
  lemma FlattenAt(blocks: seq<seq<Row>>, i: nat)
    requires i < |blocks|
    ensures |Flatten(blocks[..i])| + |blocks[i]| <= |Flatten(blocks)|
    ensures forall k :: |Flatten(blocks[..i])| <= k < |Flatten(blocks[..i])| + |blocks[i]| ==>
              Flatten(blocks)[k] == blocks[i][k - |Flatten(blocks[..i])|]
  {
    var rows := Flatten(blocks);
    var front := Flatten(blocks[..i]);
    var upTo := Flatten(blocks[..i + 1]);
    FlattenSnoc(blocks, i);
    FlattenPrefix(blocks, i + 1);
    PrefixPlacement(rows, upTo, front, blocks[i]);
  }

  /** When `front + block` is a prefix of `rows`, `block` stands in `rows`
      right after `front`. */
  lemma PrefixPlacement<T>(rows: seq<T>, upTo: seq<T>, front: seq<T>, block: seq<T>)
    requires upTo == front + block && |upTo| <= |rows|
    requires forall k :: 0 <= k < |upTo| ==> rows[k] == upTo[k]
    ensures forall k :: |front| <= k < |front| + |block| ==> rows[k] == block[k - |front|]
  {
    forall k | |front| <= k < |front| + |block| ensures rows[k] == block[k - |front|] {
      assert rows[k] == upTo[k];
    }
  }

  /** In the flattening of indexed blocks, the rows of block `i` are exactly
      those carrying index `i + 1`. */
  lemma FlattenBlock(blocks: seq<seq<Row>>, i: nat)
    requires Indexed(blocks) && i < |blocks|
    ensures forall k :: 0 <= k < |Flatten(blocks)| ==>
              (Flatten(blocks)[k].email == i + 1
               <==> |Flatten(blocks[..i])| <= k < |Flatten(blocks[..i])| + |blocks[i]|)
  {
    var rows := Flatten(blocks);
    var front := Flatten(blocks[..i]);
    var block := blocks[i];
    FlattenAt(blocks, i);
    FlattenPrefix(blocks, i);
    assert blocks[..i + 1][..i] == blocks[..i];
    assert Flatten(blocks[..i + 1]) == front + block;
    assert Indexed(blocks[..i]);
    FlattenOrdered(blocks[..i]);
    FlattenLater(blocks, i + 1);
    forall k | 0 <= k < |rows|
      ensures rows[k].email == i + 1 <==> |front| <= k < |front| + |block|
    {
      if k < |front| {
        assert rows[k] == front[k];
      } else if k < |front| + |block| {
        assert rows[k] == block[k - |front|];
      }
    }
  }

  /** The rows of the first `j` pieces are a prefix of the rows of all
      pieces; with `BatchRowsSnoc`, the rows of piece `i` stand right after
      those of the pieces before it. */
  lemma BatchRowsPrefix(pieces: seq<string>, j: nat, reply: (nat, string) -> string,
                        decode: string -> Option<Extracted>)
    requires j <= |pieces|
    ensures BatchRows(pieces[..j], reply, decode) <= BatchRows(pieces, reply, decode)
  {
    var blocks := PieceBlocks(pieces, reply, decode);
    PieceBlocksPrefix(pieces, j, reply, decode);
    FlattenPrefix(blocks, j);
    var front := Flatten(blocks[..j]);
    assert front == Flatten(blocks)[..|front|];
  }

  /** The rows carrying index `i + 1` are exactly those of piece `i`: one
      contiguous run after the rows of the pieces before it. */
  lemma PieceBlockIndices(pieces: seq<string>, i: nat, reply: (nat, string) -> string,
                          decode: string -> Option<Extracted>)
    requires i < |pieces|
    ensures forall k :: 0 <= k < |BatchRows(pieces, reply, decode)| ==>
              (BatchRows(pieces, reply, decode)[k].email == i + 1
               <==> |BatchRows(pieces[..i], reply, decode)| <= k
                    < |BatchRows(pieces[..i], reply, decode)| + |PieceRows(i, pieces[i], reply, decode)|)
  {
    var blocks := PieceBlocks(pieces, reply, decode);
    var rows := BatchRows(pieces, reply, decode);
    var off := |BatchRows(pieces[..i], reply, decode)|;
    var block := PieceRows(i, pieces[i], reply, decode);
    assert rows == Flatten(blocks) && block == blocks[i] && off == |Flatten(blocks[..i])| by {
      PieceBlocksPrefix(pieces, i, reply, decode);
      PieceBlocksAt(pieces, i, reply, decode);
    }
    assert Indexed(blocks) by {
      PieceBlocksIndexed(pieces, reply, decode);
    }
    FlattenBlock(blocks, i);
  }
}
