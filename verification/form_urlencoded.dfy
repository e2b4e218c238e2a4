/**
 * application/x-www-form-urlencoded bodies: `name=value` pieces joined by `&`.
 * `Encode` writes a list of pairs with both halves percent-encoded; `Decode`
 * is the reading a server applies (the WHATWG URL Standard's parser: split on
 * `&`, drop empty pieces, split each piece at its first `=`, a piece without
 * `=` has the empty value, then percent-decode both halves).
 */
module FormUrlEncoded {
  import opened Wrappers
  import PercentEncoding

  const ContentType: string := "application/x-www-form-urlencoded"

  type Pair = (string, string)

  /** The first position of `c` in `s`. */
  function IndexOf(s: string, c: char): (r: Option<nat>)
    ensures r.Some? ==> r.value < |s| && s[r.value] == c && c !in s[..r.value]
    ensures r.None? ==> c !in s
  {
    if s == [] then None
    else if s[0] == c then Some(0)
    else match IndexOf(s[1..], c)
      case None => None
      case Some(i) => Some(i + 1)
  }

  /** Pieces joined with `&` between them. */
  function Join(pieces: seq<string>): string
  {
    if pieces == [] then ""
    else if |pieces| == 1 then pieces[0]
    else pieces[0] + "&" + Join(pieces[1..])
  }

  /** A body cut at every `&`. */
  function Split(s: string): (pieces: seq<string>)
    ensures |pieces| > 0
    decreases |s|
  {
    match IndexOf(s, '&')
    case None => [s]
    case Some(i) => [s[..i]] + Split(s[i + 1..])
  }

  function EncodePair(p: Pair): string
  {
    PercentEncoding.Encode(p.0) + "=" + PercentEncoding.Encode(p.1)
  }

  function EncodePairs(pairs: seq<Pair>): (pieces: seq<string>)
    ensures |pieces| == |pairs|
    ensures forall i :: 0 <= i < |pairs| ==> pieces[i] == EncodePair(pairs[i])
  {
    if pairs == [] then [] else [EncodePair(pairs[0])] + EncodePairs(pairs[1..])
  }

  function Encode(pairs: seq<Pair>): string
  {
    Join(EncodePairs(pairs))
  }

  function DecodePiece(piece: string): Option<Pair>
  {
    var (name, value) := match IndexOf(piece, '=')
      case None => (piece, "")
      case Some(i) => (piece[..i], piece[i + 1..]);
    match (PercentEncoding.Decode(name), PercentEncoding.Decode(value))
    case (Some(n), Some(v)) => Some((n, v))
    case _ => None
  }

  function DecodePieces(pieces: seq<string>): Option<seq<Pair>>
  {
    if pieces == [] then Some([])
    else match DecodePieces(pieces[1..])
      case None => None
      case Some(rest) =>
        if pieces[0] == [] then Some(rest)
        else match DecodePiece(pieces[0])
          case None => None
          case Some(p) => Some([p] + rest)
  }

  /** The pairs a form reader finds in a body. */
  function Decode(body: string): Option<seq<Pair>>
  {
    DecodePieces(Split(body))
  }

  lemma IndexOfAfter(a: string, c: char, b: string)
    requires c !in a
    ensures IndexOf(a + [c] + b, c) == Some(|a|)
  {
    if a != [] {
      assert (a + [c] + b)[1..] == a[1..] + [c] + b;
      IndexOfAfter(a[1..], c, b);
    }
  }

  /** Cutting a join of `&`-free pieces at `&` gives the pieces back. */
  lemma {:induction false} SplitJoin(pieces: seq<string>)
    requires |pieces| > 0
    requires forall i :: 0 <= i < |pieces| ==> '&' !in pieces[i]
    ensures Split(Join(pieces)) == pieces
  {
    if |pieces| > 1 {
      var s := Join(pieces);
      IndexOfAfter(pieces[0], '&', Join(pieces[1..]));
      assert s[..|pieces[0]|] == pieces[0];
      assert s[|pieces[0]| + 1..] == Join(pieces[1..]);
      SplitJoin(pieces[1..]);
      assert [pieces[0]] + pieces[1..] == pieces;
    }
  }

  lemma DecodeEncodePair(p: Pair)
    ensures '&' !in EncodePair(p) && EncodePair(p) != []
    ensures DecodePiece(EncodePair(p)) == Some(p)
  {
    var n, v := PercentEncoding.Encode(p.0), PercentEncoding.Encode(p.1);
    PercentEncoding.EncodeAlphabet(p.0);
    PercentEncoding.EncodeAlphabet(p.1);
    assert '&' !in n && '&' !in v && '=' !in n;
    IndexOfAfter(n, '=', v);
    var piece := EncodePair(p);
    assert piece[..|n|] == n && piece[|n| + 1..] == v;
    PercentEncoding.DecodeEncode(p.0);
    PercentEncoding.DecodeEncode(p.1);
  }

  lemma {:induction false} DecodePiecesEncodePairs(pairs: seq<Pair>)
    ensures DecodePieces(EncodePairs(pairs)) == Some(pairs)
  {
    if pairs != [] {
      DecodeEncodePair(pairs[0]);
      DecodePiecesEncodePairs(pairs[1..]);
      assert EncodePairs(pairs)[1..] == EncodePairs(pairs[1..]);
      assert [pairs[0]] + pairs[1..] == pairs;
    }
  }

  /** Round trip: a form reader recovers exactly the pairs that were encoded, in order. */
  lemma DecodeEncode(pairs: seq<Pair>)
    ensures Decode(Encode(pairs)) == Some(pairs)
  {
    var pieces := EncodePairs(pairs);
    if pairs == [] {
      assert Split("") == [""];
    } else {
      forall i | 0 <= i < |pieces| ensures '&' !in pieces[i] {
        DecodeEncodePair(pairs[i]);
      }
      SplitJoin(pieces);
      DecodePiecesEncodePairs(pairs);
    }
  }

  /** Every piece of a join stands in the joined text at the offset returned. */
  lemma {:induction false} JoinContains(pieces: seq<string>, i: nat) returns (k: nat)
    requires i < |pieces|
    ensures k + |pieces[i]| <= |Join(pieces)|
    ensures Join(pieces)[k..k + |pieces[i]|] == pieces[i]
  {
    if i == 0 {
      k := 0;
      if |pieces| > 1 {
        assert Join(pieces)[..|pieces[0]|] == pieces[0];
      }
    } else {
      var k' := JoinContains(pieces[1..], i - 1);
      k := |pieces[0]| + 1 + k';
      var s := Join(pieces);
      assert s == pieces[0] + "&" + Join(pieces[1..]);
      assert s[k..k + |pieces[i]|] == Join(pieces[1..])[k'..k' + |pieces[i]|];
    }
  }
}
