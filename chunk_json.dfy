/** A concrete stand-in for `JSON.parse(payload).chunk` on the one event
    shape the server sends, `{"chunk": "<text>"}` with text that needs no
    escaping, and wire-level examples of the client's line handling built
    on it. */
module ChunkJson {
  import opened Common
  import opened JsString
  import opened StreamClient

  const Open: string := "{\"chunk\": \""
  const Close: string := "\"}"

  /** Text that a JSON string literal holds verbatim: no quote, no
      backslash, no control character. */
  predicate PlainText(t: string) {
    forall i :: 0 <= i < |t| ==> t[i] != '"' && t[i] != '\\' && t[i] as int >= 0x20
  }

  function Encode(t: string): string {
    Open + t + Close
  }

  /** `Some(text)` for a payload of the shape `{"chunk": "<text>"}`, `None`
      for anything else. */
  function Decode(payload: string): (r: Option<string>)
    ensures r.Some? ==> PlainText(r.value) && Encode(r.value) == payload
  {
    if |payload| >= |Open| + |Close|
       && payload[..|Open|] == Open && payload[|payload| - |Close|..] == Close
    then
      var body := payload[|Open|..|payload| - |Close|];
      assert payload == Open + body + Close;
      if PlainText(body) then Some(body) else None
    else None
  }

  lemma DecodeEncode(t: string)
    requires PlainText(t)
    ensures Decode(Encode(t)) == Some(t)
  {
    var p := Encode(t);
    assert p[..|Open|] == Open;
    assert p[|p| - |Close|..] == Close;
    assert p[|Open|..|p| - |Close|] == t;
  }

  /** The wire line of one event, without its line ending. */
  function DataLine(t: string): string {
    DataPrefix + Encode(t)
  }

  lemma EncodeIsTrimmed(t: string)
    ensures IsTrimmed(Encode(t))
  {
    var e := Encode(t);
    assert e[0] == '{';
    assert e[|e| - 1] == '}';
    assert !IsWhiteSpace('{') && !IsWhiteSpace('}');
  }

  lemma DataLineHasNoNewline(t: string)
    requires PlainText(t)
    ensures Newline !in DataLine(t)
  {
    var line := DataLine(t);
    forall i | 0 <= i < |line| ensures line[i] != Newline {
      if i < |DataPrefix| {
        assert line[i] == DataPrefix[i];
      } else if i < |DataPrefix| + |Open| {
        assert line[i] == Open[i - |DataPrefix|];
      } else if i < |DataPrefix| + |Open| + |t| {
        assert line[i] == t[i - |DataPrefix| - |Open|];
      } else {
        assert line[i] == Close[i - |DataPrefix| - |Open| - |t|];
      }
    }
  }

  /** The line of a non-empty event is accepted, and contributes its text. */
  lemma DataLineAccepted(t: string)
    requires PlainText(t) && t != ""
    ensures ClassifyLine(DataLine(t), Decode) == Chunk(t)
  {
    var e := Encode(t);
    assert Payload(DataLine(t)) == e by {
      PayloadOfDataLine(e);
      EncodeIsTrimmed(t);
      TrimmedUnchanged(e);
    }
    assert e != DoneMarker by {
      assert e[0] == '{' && DoneMarker[0] == '[';
    }
    assert StartsWith(DataLine(t), DataPrefix) by {
      PayloadOfDataLine(e);
    }
    DecodeEncode(t);
  }

  lemma FiveLines(l1: string, l2: string, l3: string, l4: string, l5: string, parse: string -> Option<string>)
    ensures LineChunks([l1, l2, l3, l4, l5], parse)
      == Accepted(ClassifyLine(l1, parse)) + Accepted(ClassifyLine(l2, parse)) + Accepted(ClassifyLine(l3, parse))
         + Accepted(ClassifyLine(l4, parse)) + Accepted(ClassifyLine(l5, parse))
  {
    var a1, a2, a3 := Accepted(ClassifyLine(l1, parse)), Accepted(ClassifyLine(l2, parse)), Accepted(ClassifyLine(l3, parse));
    var a4, a5 := Accepted(ClassifyLine(l4, parse)), Accepted(ClassifyLine(l5, parse));
    calc {
      LineChunks([l1, l2, l3, l4, l5], parse);
      { assert [l1, l2, l3, l4] + [l5] == [l1, l2, l3, l4, l5];
        LineChunksSnoc([l1, l2, l3, l4], l5, parse); }
      LineChunks([l1, l2, l3, l4], parse) + a5;
      { assert [l1, l2, l3] + [l4] == [l1, l2, l3, l4];
        LineChunksSnoc([l1, l2, l3], l4, parse); }
      LineChunks([l1, l2, l3], parse) + a4 + a5;
      { assert [l1, l2] + [l3] == [l1, l2, l3];
        LineChunksSnoc([l1, l2], l3, parse); }
      LineChunks([l1, l2], parse) + a3 + a4 + a5;
      { assert [l1] + [l2] == [l1, l2];
        LineChunksSnoc([l1], l2, parse); }
      LineChunks([l1], parse) + a2 + a3 + a4 + a5;
      { assert [] + [l1] == [l1];
        LineChunksSnoc([], l1, parse); }
      LineChunks([], parse) + a1 + a2 + a3 + a4 + a5;
      { assert LineChunks([], parse) + a1 == a1; }
      a1 + a2 + a3 + a4 + a5;
    }
  }

  /** Three accepted lines followed by two skipped ones give the three
      chunks, in order. */
  lemma ThreeThenSkipped(l1: string, l2: string, l3: string, l4: string, l5: string,
                         a: string, b: string, c: string, parse: string -> Option<string>)
    requires ClassifyLine(l1, parse) == Chunk(a)
    requires ClassifyLine(l2, parse) == Chunk(b)
    requires ClassifyLine(l3, parse) == Chunk(c)
    requires !ClassifyLine(l4, parse).Chunk? && !ClassifyLine(l5, parse).Chunk?
    ensures LineChunks([l1, l2, l3, l4, l5], parse) == [a, b, c]
  {
    FiveLines(l1, l2, l3, l4, l5, parse);
    assert [a] + [b] + [c] + [] + [] == [a, b, c];
  }

  /** Three events, `[DONE]` and the empty piece after the last line
      ending: the three texts, in order. */
  lemma ThreeEvents(a: string, b: string, c: string)
    requires PlainText(a) && a != "" && PlainText(b) && b != "" && PlainText(c) && c != ""
    ensures LineChunks([DataLine(a), DataLine(b), DataLine(c), DataPrefix + DoneMarker, ""], Decode)
      == [a, b, c]
  {
    DataLineAccepted(a);
    DataLineAccepted(b);
    DataLineAccepted(c);
    DoneLineSkipped(Decode);
    OtherLinesSkipped("", Decode);
    ThreeThenSkipped(DataLine(a), DataLine(b), DataLine(c), DataPrefix + DoneMarker, "", a, b, c, Decode);
  }

  /** Three chunks published one after the other carry the running
      concatenation. */
  lemma ThreeSnapshots(message: string, x: string, y: string, z: string)
    ensures Snapshots(message, [x, y, z])
      == [Exchange(message, x), Exchange(message, x + y), Exchange(message, x + y + z)]
    ensures Concat([x, y, z]) == x + y + z
  {
    assert [] + [x] == [x];
    assert [x] + [y] == [x, y];
    assert [x, y] + [z] == [x, y, z];
    ConcatStep([], x);
    assert Concat([x]) == x by {
      assert "" + x == x;
    }
    ConcatStep([x], y);
    ConcatStep([x, y], z);
    assert Snapshots(message, []) == [];
    SnapshotsStep(message, [], x);
    SnapshotsStep(message, [x], y);
    SnapshotsStep(message, [x, y], z);
  }

  /** The wire of one read holding three events, `[DONE]` and a final line
      ending. */
  function FoldWire(): string {
    Join([DataLine("Hel"), DataLine("lo, "), DataLine("world"), DataPrefix + DoneMarker, ""], Newline)
  }

  lemma FoldWireChunks()
    ensures ReadChunks([FoldWire()], Decode) == ["Hel", "lo, ", "world"]
  {
    var lines := [DataLine("Hel"), DataLine("lo, "), DataLine("world"), DataPrefix + DoneMarker, ""];
    DataLineHasNoNewline("Hel");
    DataLineHasNoNewline("lo, ");
    DataLineHasNoNewline("world");
    assert Newline !in DataPrefix + DoneMarker;
    SplitJoin(lines, Newline);
    ThreeEvents("Hel", "lo, ", "world");
    OneRead(FoldWire(), Decode);
  }

  /** Three events then `[DONE]` in one read: the model turn is published as
      "Hel", then "Hello, ", then "Hello, world", which is also the
      resolved content. */
  lemma FoldOrderExample(message: string)
    ensures var response := Body([FoldWire()], None);
      Published(true, message, response, Decode)
        == [Exchange(message, "Hel"), Exchange(message, "Hello, "), Exchange(message, "Hello, world")]
      && Outcome(message, response, Decode) == Ok(Exchange(message, "Hello, world"))
  {
    FoldWireChunks();
    ThreeSnapshots(message, "Hel", "lo, ", "world");
    HelloWorld();
  }

  lemma HelloWorld()
    ensures "Hel" + "lo, " == "Hello, "
    ensures "Hel" + "lo, " + "world" == "Hello, world"
  {
  }

  /** One read holding a whole event line and its line ending gives the
      event's text. */
  lemma WholeLineRead()
    ensures ReadChunks([DataLine("Hi") + "\n"], Decode) == ["Hi"]
  {
    DataLineHasNoNewline("Hi");
    TerminatedLine(DataLine("Hi"), Decode);
    DataLineAccepted("Hi");
    OneRead(DataLine("Hi") + "\n", Decode);
  }

  /** The first part of the cut: a `data: ` line whose payload is cut short
      and so does not parse. */
  lemma CutHeadDropped()
    ensures LineChunks(Split(DataPrefix + "{\"chu", Newline), Decode) == []
  {
    var first := DataPrefix + "{\"chu";
    CutHeadHasNoNewline();
    SplitWithoutSeparator(first, Newline);
    CutHeadClassified();
    LineChunksOfOne(first, Decode);
  }

  lemma CutHeadHasNoNewline()
    ensures Newline !in DataPrefix + "{\"chu"
  {
  }

  lemma CutHeadClassified()
    ensures ClassifyLine(DataPrefix + "{\"chu", Decode) == Dropped
  {
    var p := "{\"chu";
    assert Trim(p) == p by {
      assert IsTrimmed(p) by {
        assert p[0] == '{' && p[|p| - 1] == 'u';
      }
      TrimmedUnchanged(p);
    }
    assert p != DoneMarker by {
      assert |p| != |DoneMarker|;
    }
    assert Decode(p) == None by {
      assert |p| < |Open| + |Close|;
    }
    PayloadOfDataLine(p);
    MalformedPayloadDropped(DataPrefix + p, Decode);
  }

  /** The second part of the cut: the rest of the line, which does not start
      with `data: `. */
  lemma CutTailSkipped()
    ensures LineChunks(Split("nk\": \"Hi\"}\n", Newline), Decode) == []
  {
    var piece := "nk\": \"Hi\"}";
    assert Newline !in piece;
    assert "nk\": \"Hi\"}\n" == piece + "\n";
    TerminatedLine(piece, Decode);
    assert ClassifyLine(piece, Decode) == NotData by {
      assert piece[0] != DataPrefix[0];
    }
  }

  /** The two reads of the cut hold exactly the bytes of the whole read. */
  lemma CutReassembles()
    ensures DataLine("Hi") + "\n" == (DataPrefix + "{\"chu") + "nk\": \"Hi\"}\n"
  {
    assert Encode("Hi") + "\n" == "{\"chu" + "nk\": \"Hi\"}\n";
    calc {
      DataLine("Hi") + "\n";
      DataPrefix + Encode("Hi") + "\n";
      DataPrefix + (Encode("Hi") + "\n");
      DataPrefix + ("{\"chu" + "nk\": \"Hi\"}\n");
      (DataPrefix + "{\"chu") + "nk\": \"Hi\"}\n";
    }
  }

  /** Lines are not carried over between reads: the same bytes delivered
      in one read, or cut inside the `data: ` line across two reads, give
      different content. The cut line is seen as two partial lines, neither
      of which is an event. */
  lemma SplitEventIsLost()
    ensures var whole := [DataLine("Hi") + "\n"];
      var cut := [DataPrefix + "{\"chu", "nk\": \"Hi\"}\n"];
      whole[0] == cut[0] + cut[1]
      && Concat(ReadChunks(whole, Decode)) == "Hi"
      && Concat(ReadChunks(cut, Decode)) == ""
  {
    var first, second := DataPrefix + "{\"chu", "nk\": \"Hi\"}\n";
    CutReassembles();
    WholeLineRead();
    assert Concat(["Hi"]) == "Hi" by {
      assert ["Hi"][..0] == [];
    }
    CutHeadDropped();
    CutTailSkipped();
    TwoReads(first, second, Decode);
    assert Concat([]) == "";
  }
}
