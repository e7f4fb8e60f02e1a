/** Header folding: `normalize_column_names` decomposes each header (NFKD) and then
    drops every code point that is not 7-bit ASCII. */
module Headers {

  /** `encode('ascii', 'ignore')` keeps a code point exactly when it is 7-bit ASCII. */
  predicate IsAscii(c: char) {
    c as int < 128
  }

  predicate IsAsciiString(s: string) {
    forall i :: 0 <= i < |s| ==> IsAscii(s[i])
  }

  /** The NFKD decomposition of one code point is not modelled; the only thing assumed of
      it is that an ASCII character has no decomposition and stays as it is. */
  predicate FixesAscii(decompose: char -> string) {
    forall c {:trigger decompose(c)} :: IsAscii(c) ==> decompose(c) == [c]
  }

  /** NFKD of a whole string, as the concatenation of the decompositions of its code points.
      Canonical reordering only moves combining marks, none of which is ASCII, so it cannot
      change what the ASCII filter keeps. */
  function Decompose(decompose: char -> string, s: string): (r: string)
    ensures FixesAscii(decompose) && IsAsciiString(s) ==> r == s
  {
    if s == [] then []
    else
      assert forall i :: 0 <= i < |s| - 1 ==> s[1..][i] == s[i + 1];
      decompose(s[0]) + Decompose(decompose, s[1..])
  }

  /** `.encode('ascii', 'ignore').decode('utf-8')`: the ASCII code points of `s`, in order. */
  function AsciiOnly(s: string): (r: string)
    ensures IsAsciiString(r)
    ensures |r| <= |s|
    ensures forall c :: c in r <==> c in s && IsAscii(c)
    ensures IsAsciiString(s) ==> r == s
  {
    if s == [] then []
    else
      assert forall i :: 0 <= i < |s| - 1 ==> s[1..][i] == s[i + 1];
      assert s == [s[0]] + s[1..];
      if IsAscii(s[0]) then [s[0]] + AsciiOnly(s[1..]) else AsciiOnly(s[1..])
  }

  /** The folded form of one header. */
  function Fold(decompose: char -> string, col: string): (r: string)
    ensures IsAsciiString(r)
    ensures FixesAscii(decompose) && IsAsciiString(col) ==> r == col
  {
    AsciiOnly(Decompose(decompose, col))
  }

  /** Folding a folded header changes nothing. */
  lemma FoldIdempotent(decompose: char -> string, col: string)
    requires FixesAscii(decompose)
    ensures Fold(decompose, Fold(decompose, col)) == Fold(decompose, col)
  {
  }

  /** The header list `normalize_column_names` returns: one folded header per raw header,
      each ASCII; a header list that is already ASCII comes back unchanged. */
  function FoldedHeaders(decompose: char -> string, raw: seq<string>): (r: seq<string>)
    ensures |r| == |raw|
    ensures forall i :: 0 <= i < |r| ==> IsAsciiString(r[i])
    ensures FixesAscii(decompose) && (forall i :: 0 <= i < |raw| ==> IsAsciiString(raw[i])) ==> r == raw
  {
    seq(|raw|, i requires 0 <= i < |raw| => Fold(decompose, raw[i]))
  }

  /** `normalize_column_names`: one folded name per header, in the same order; every result
      is ASCII, and a header list that is already ASCII comes back unchanged, so normalizing
      the result again is a no-op. */
  method NormalizeColumnNames(columns: seq<string>, decompose: char -> string) returns (normalized: seq<string>)
    ensures normalized == FoldedHeaders(decompose, columns)
    ensures forall i :: 0 <= i < |normalized| ==> IsAsciiString(normalized[i])
    ensures FixesAscii(decompose) && (forall i :: 0 <= i < |columns| ==> IsAsciiString(columns[i])) ==>
              normalized == columns
  {
    normalized := [];
    for i := 0 to |columns|
      invariant |normalized| == i
      invariant forall k :: 0 <= k < i ==> normalized[k] == Fold(decompose, columns[k])
    {
      normalized := normalized + [Fold(decompose, columns[i])];
    }
  }

  lemma {:induction false} DecomposeAppend(decompose: char -> string, a: string, b: string)
    ensures Decompose(decompose, a + b) == Decompose(decompose, a) + Decompose(decompose, b)
  {
    if a == [] {
      assert a + b == b;
    } else {
      assert (a + b)[0] == a[0] && (a + b)[1..] == a[1..] + b;
      DecomposeAppend(decompose, a[1..], b);
    }
  }

  lemma {:induction false} AsciiOnlyAppend(a: string, b: string)
    ensures AsciiOnly(a + b) == AsciiOnly(a) + AsciiOnly(b)
  {
    if a == [] {
      assert a + b == b;
    } else {
      assert (a + b)[0] == a[0] && (a + b)[1..] == a[1..] + b;
      AsciiOnlyAppend(a[1..], b);
    }
  }

  /** A letter followed by one non-ASCII combining mark folds to the letter. */
  lemma FoldsMarkedLetter(decompose: char -> string, c: char, base: char, mark: char)
    requires IsAscii(base) && !IsAscii(mark)
    requires decompose(c) == [base, mark]
    ensures Decompose(decompose, [c]) == [base, mark]
    ensures AsciiOnly([base, mark]) == [base]
  {
    assert [base, mark][1..] == [mark];
  }

  /** The station header "ESTAÇÃO" decoded correctly, and its UTF-8 bytes decoded as Latin-1. */
  const DecodedStationHeader: string := "ESTA\U{00C7}\U{00C3}O"
  const MisreadStationHeader: string := "ESTA\U{00C3}\U{0087}\U{00C3}\U{0083}O"

  /** The NFKD form of the correctly decoded header, before the ASCII filter. */
  lemma {:induction false} DecomposesDecodedStationHeader(decompose: char -> string)
    requires FixesAscii(decompose)
    requires decompose('\U{00C7}') == "C\U{0327}"
    requires decompose('\U{00C3}') == "A\U{0303}"
    ensures Decompose(decompose, DecodedStationHeader) == "ESTA" + "C\U{0327}" + "A\U{0303}" + "O"
  {
    var head, c, a, tail := "ESTA", ['\U{00C7}'], ['\U{00C3}'], "O";
    var cedilla, tilde := "C\U{0327}", "A\U{0303}";
    FoldsMarkedLetter(decompose, '\U{00C7}', 'C', '\U{0327}');
    FoldsMarkedLetter(decompose, '\U{00C3}', 'A', '\U{0303}');
    assert IsAsciiString(head) && IsAsciiString(tail);
    calc {
      Decompose(decompose, DecodedStationHeader);
      { assert DecodedStationHeader == head + c + a + tail; }
      Decompose(decompose, head + c + a + tail);
      { DecomposeAppend(decompose, head + c + a, tail); }
      Decompose(decompose, head + c + a) + tail;
      { DecomposeAppend(decompose, head + c, a); }
      Decompose(decompose, head + c) + tilde + tail;
      { DecomposeAppend(decompose, head, c); }
      head + cedilla + tilde + tail;
    }
  }

  /** The ASCII filter applied to that NFKD form keeps "ESTACAO". */
  lemma {:induction false} FiltersDecodedDecomposition()
    ensures AsciiOnly("ESTA" + "C\U{0327}" + "A\U{0303}" + "O") == "ESTACAO"
  {
    var head, tail := "ESTA", "O";
    var cedilla, tilde := "C\U{0327}", "A\U{0303}";
    assert head + "C" + "A" + tail == "ESTACAO";
    assert AsciiOnly(cedilla) == "C" by { assert cedilla[1..] == "\U{0327}"; }
    assert AsciiOnly(tilde) == "A" by { assert tilde[1..] == "\U{0303}"; }
    assert IsAsciiString(head) && IsAsciiString(tail);
    calc {
      AsciiOnly(head + cedilla + tilde + tail);
      { AsciiOnlyAppend(head + cedilla + tilde, tail); }
      AsciiOnly(head + cedilla + tilde) + tail;
      { AsciiOnlyAppend(head + cedilla, tilde); }
      AsciiOnly(head + cedilla) + "A" + tail;
      { AsciiOnlyAppend(head, cedilla); }
      head + "C" + "A" + tail;
    }
  }

  /** "ESTAÇÃO", decoded correctly, folds to "ESTACAO" under the NFKD decompositions of
      Ç (C + combining cedilla) and Ã (A + combining tilde). */
  lemma FoldsDecodedStationHeader(decompose: char -> string)
    requires FixesAscii(decompose)
    requires decompose('\U{00C7}') == "C\U{0327}"
    requires decompose('\U{00C3}') == "A\U{0303}"
    ensures Fold(decompose, DecodedStationHeader) == "ESTACAO"
  {
    DecomposesDecodedStationHeader(decompose);
    FiltersDecodedDecomposition();
  }

  /** The NFKD form of the misread header, before the ASCII filter. */
  lemma {:induction false} DecomposesMisreadStationHeader(decompose: char -> string)
    requires FixesAscii(decompose)
    requires decompose('\U{00C3}') == "A\U{0303}"
    requires decompose('\U{0087}') == "\U{0087}"
    requires decompose('\U{0083}') == "\U{0083}"
    ensures Decompose(decompose, MisreadStationHeader) == "ESTA" + "A\U{0303}" + "\U{0087}" + "A\U{0303}" + "\U{0083}" + "O"
  {
    var head, a, x87, x83, tail := "ESTA", ['\U{00C3}'], ['\U{0087}'], ['\U{0083}'], "O";
    var tilde := "A\U{0303}";
    FoldsMarkedLetter(decompose, '\U{00C3}', 'A', '\U{0303}');
    assert Decompose(decompose, x87) == x87 && Decompose(decompose, x83) == x83;
    assert IsAsciiString(head) && IsAsciiString(tail);
    calc {
      Decompose(decompose, MisreadStationHeader);
      { assert MisreadStationHeader == head + a + x87 + a + x83 + tail; }
      Decompose(decompose, head + a + x87 + a + x83 + tail);
      { DecomposeAppend(decompose, head + a + x87 + a + x83, tail); }
      Decompose(decompose, head + a + x87 + a + x83) + tail;
      { DecomposeAppend(decompose, head + a + x87 + a, x83); }
      Decompose(decompose, head + a + x87 + a) + x83 + tail;
      { DecomposeAppend(decompose, head + a + x87, a); }
      Decompose(decompose, head + a + x87) + tilde + x83 + tail;
      { DecomposeAppend(decompose, head + a, x87); }
      Decompose(decompose, head + a) + x87 + tilde + x83 + tail;
      { DecomposeAppend(decompose, head, a); }
      head + tilde + x87 + tilde + x83 + tail;
    }
  }

  /** The ASCII filter applied to that NFKD form keeps "ESTAAAO". */
  lemma {:induction false} FiltersMisreadDecomposition()
    ensures AsciiOnly("ESTA" + "A\U{0303}" + "\U{0087}" + "A\U{0303}" + "\U{0083}" + "O") == "ESTAAAO"
  {
    var head, x87, x83, tail := "ESTA", "\U{0087}", "\U{0083}", "O";
    var tilde := "A\U{0303}";
    assert head + "A" + "A" + tail == "ESTAAAO";
    assert AsciiOnly(x87) == [] && AsciiOnly(x83) == [];
    assert AsciiOnly(tilde) == "A" by { assert tilde[1..] == "\U{0303}"; }
    assert IsAsciiString(head) && IsAsciiString(tail);
    calc {
      AsciiOnly(head + tilde + x87 + tilde + x83 + tail);
      { AsciiOnlyAppend(head + tilde + x87 + tilde + x83, tail); }
      AsciiOnly(head + tilde + x87 + tilde + x83) + tail;
      { AsciiOnlyAppend(head + tilde + x87 + tilde, x83);
        assert AsciiOnly(head + tilde + x87 + tilde) + [] == AsciiOnly(head + tilde + x87 + tilde); }
      AsciiOnly(head + tilde + x87 + tilde) + tail;
      { AsciiOnlyAppend(head + tilde + x87, tilde); }
      AsciiOnly(head + tilde + x87) + "A" + tail;
      { AsciiOnlyAppend(head + tilde, x87);
        assert AsciiOnly(head + tilde) + [] == AsciiOnly(head + tilde); }
      AsciiOnly(head + tilde) + "A" + tail;
      { AsciiOnlyAppend(head, tilde); }
      head + "A" + "A" + tail;
    }
  }

  /** The UTF-8 bytes of "ESTAÇÃO" decoded as Latin-1 read "ESTAÃ\x87Ã\x83O"; the two C1
      control characters have no decomposition and are dropped, leaving "ESTAAAO". */
  lemma FoldsMisreadStationHeader(decompose: char -> string)
    requires FixesAscii(decompose)
    requires decompose('\U{00C3}') == "A\U{0303}"
    requires decompose('\U{0087}') == "\U{0087}"
    requires decompose('\U{0083}') == "\U{0083}"
    ensures Fold(decompose, MisreadStationHeader) == "ESTAAAO"
  {
    DecomposesMisreadStationHeader(decompose);
    FiltersMisreadDecomposition();
  }
}
