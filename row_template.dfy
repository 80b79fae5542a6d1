/** The row template shared by both lot administrators: the comma-separated
    list of spot types that every row repeats, how its tokens are read,
    and which spot ids a template of a given number of rows lays out. */
module RowTemplate {
  import opened ParkingTypes
  import opened SpotIds

  // ---------------------------------------------------------------------
  // The row template
  // ---------------------------------------------------------------------

  /** The name of a spot type, as ParkingSpotType.valueOf expects it. */
  function SpotTypeName(t: SpotType): string
  {
    match t
    case COMPACT => "COMPACT"
    case REGULAR => "REGULAR"
  }

  /** ParkingSpotType.valueOf(token.strip()): the type named by the token
      once leading and trailing whitespace is removed. */
  function ParseSpotType(token: string): Option<SpotType>
  {
    var name := Strip(token);
    if name == "COMPACT" then Some(COMPACT)
    else if name == "REGULAR" then Some(REGULAR)
    else None
  }

  /** A token parses exactly when its stripped text is a type name, and
      then to the type of that name. */
  lemma ParseSpotTypeSpec(token: string)
    ensures ParseSpotType(token).Some? <==> Strip(token) in {SpotTypeName(COMPACT), SpotTypeName(REGULAR)}
    ensures ParseSpotType(token).Some? ==> Strip(token) == SpotTypeName(ParseSpotType(token).value)
  {
  }

  /** A type name, padded with blanks or not, parses back to its type. */
  lemma ParseSpotTypeName(t: SpotType, pad: nat)
    ensures ParseSpotType(SpotTypeName(t)) == Some(t)
    ensures ParseSpotType(seq(pad, _ => ' ') + SpotTypeName(t) + seq(pad, _ => ' ')) == Some(t)
  {
    StripTrimmed(SpotTypeName(t));
    StripPadded(SpotTypeName(t), pad);
  }

  /** rowSequence.split(","): the tokens of the template. */
  function Tokens(rowSequence: string): seq<string>
  {
    JavaSplit(rowSequence, ',')
  }

  /** The validation loop of the constructor as a definition: the type of
      every token, or IllegalSpotTypeException naming the first token that
      is not a type, as written in the template. */
  function Arrangement(tokens: seq<string>): Result<seq<SpotType>, ParkingError>
  {
    if |tokens| == 0 then Ok([])
    else
      match Arrangement(tokens[..|tokens| - 1])
      case Err(e) => Err(e)
      case Ok(types) =>
        match ParseSpotType(tokens[|tokens| - 1])
        case None => Err(IllegalSpotType(tokens[|tokens| - 1]))
        case Some(t) => Ok(types + [t])
  }

  /** Every token names a type. */
  predicate AllNamed(tokens: seq<string>)
  {
    forall k :: 0 <= k < |tokens| ==> ParseSpotType(tokens[k]).Some?
  }

  /** A template whose tokens all name types is accepted, with their types
      in order. */
  lemma {:induction false} ArrangementAccepts(tokens: seq<string>)
    requires AllNamed(tokens)
    ensures Arrangement(tokens).Ok? && |Arrangement(tokens).value| == |tokens|
    ensures forall k :: 0 <= k < |tokens| ==> ParseSpotType(tokens[k]) == Some(Arrangement(tokens).value[k])
  {
    if |tokens| > 0 {
      var init := tokens[..|tokens| - 1];
      assert AllNamed(init) by {
        forall k | 0 <= k < |init| ensures ParseSpotType(init[k]).Some? {
          assert init[k] == tokens[k];
        }
      }
      ArrangementAccepts(init);
      var types := Arrangement(init).value;
      var t := ParseSpotType(tokens[|tokens| - 1]).value;
      assert Arrangement(tokens) == Ok(types + [t]);
      forall k | 0 <= k < |tokens| ensures ParseSpotType(tokens[k]) == Some((types + [t])[k]) {
        if k < |init| {
          assert init[k] == tokens[k];
        }
      }
    }
  }

  /** A template with a token that names no type is rejected with the first
      such token, as written. */
  lemma {:induction false} ArrangementRejects(tokens: seq<string>, k: nat)
    requires k < |tokens| && ParseSpotType(tokens[k]).None?
    requires forall l :: 0 <= l < k ==> ParseSpotType(tokens[l]).Some?
    ensures Arrangement(tokens) == Err(IllegalSpotType(tokens[k]))
  {
    var init := tokens[..|tokens| - 1];
    if k < |tokens| - 1 {
      assert init[k] == tokens[k];
      assert forall l :: 0 <= l < k ==> init[l] == tokens[l];
      ArrangementRejects(init, k);
    } else {
      assert forall l :: 0 <= l < |init| ==> init[l] == tokens[l];
      ArrangementAccepts(init);
    }
  }

  /** The tokens before an accepted prefix's end all name types. */
  lemma {:induction false} ArrangementPrefixNamed(tokens: seq<string>, i: nat, types: seq<SpotType>)
    requires i <= |tokens| && Arrangement(tokens[..i]) == Ok(types)
    ensures forall l :: 0 <= l < i ==> ParseSpotType(tokens[l]).Some?
  {
    if i > 0 {
      var prefix := tokens[..i];
      assert prefix[..i - 1] == tokens[..i - 1];
      assert prefix[i - 1] == tokens[i - 1];
      assert Arrangement(prefix[..i - 1]).Ok? && ParseSpotType(prefix[i - 1]).Some?;
      ArrangementPrefixNamed(tokens, i - 1, Arrangement(tokens[..i - 1]).value);
    }
  }

  /** One more accepted token extends an accepted prefix by its type. */
  lemma ArrangementStep(tokens: seq<string>, i: nat, types: seq<SpotType>, t: SpotType)
    requires i < |tokens| && Arrangement(tokens[..i]) == Ok(types) && ParseSpotType(tokens[i]) == Some(t)
    ensures Arrangement(tokens[..i + 1]) == Ok(types + [t])
  {
    assert tokens[..i + 1][..i] == tokens[..i];
  }

  /** The validation loop: each token is stripped and looked up in turn,
      into an arrangement as long as the template. */
  method ValidateArrangement(rowSequence: string) returns (r: Result<seq<SpotType>, ParkingError>)
    ensures r == Arrangement(Tokens(rowSequence))
  {
    var tokens := Tokens(rowSequence);
    var valid: seq<SpotType> := [];
    var i := 0;
    while i < |tokens|
      invariant 0 <= i <= |tokens|
      invariant Arrangement(tokens[..i]) == Ok(valid)
    {
      match ParseSpotType(tokens[i]) {
        case None =>
          ArrangementPrefixNamed(tokens, i, valid);
          ArrangementRejects(tokens, i);
          return Err(IllegalSpotType(tokens[i]));
        case Some(t) =>
          ArrangementStep(tokens, i, valid, t);
          valid := valid + [t];
      }
      i := i + 1;
    }
    assert tokens[..i] == tokens;
    return Ok(valid);
  }

  // ---------------------------------------------------------------------
  // The spots a template builds
  // ---------------------------------------------------------------------

  /** The ids of spots of type `t` in row `row`, columns 1 to `cols`. */
  function RowIds(arrangement: seq<SpotType>, t: SpotType, row: nat, cols: nat): seq<string>
    requires cols <= |arrangement|
  {
    if cols == 0 then []
    else RowIds(arrangement, t, row, cols - 1)
         + (if arrangement[cols - 1] == t then [FormatSpotId(row, cols)] else [])
  }

  /** The ids of spots of type `t` in rows 1 to `rows`, row by row. */
  function PlannedIds(arrangement: seq<SpotType>, t: SpotType, rows: int): seq<string>
    decreases rows
  {
    if rows <= 0 then [] else PlannedIds(arrangement, t, rows - 1) + RowIds(arrangement, t, rows, |arrangement|)
  }

  /** How many columns of the template have type `t`. */
  function Occurrences(arrangement: seq<SpotType>, t: SpotType, cols: nat): nat
    requires cols <= |arrangement|
  {
    if cols == 0 then 0 else Occurrences(arrangement, t, cols - 1) + (if arrangement[cols - 1] == t then 1 else 0)
  }

  lemma {:induction false} RowIdsCount(arrangement: seq<SpotType>, t: SpotType, row: nat, cols: nat)
    requires cols <= |arrangement|
    ensures |RowIds(arrangement, t, row, cols)| == Occurrences(arrangement, t, cols)
    ensures Occurrences(arrangement, COMPACT, cols) + Occurrences(arrangement, REGULAR, cols) == cols
  {
    if cols > 0 {
      RowIdsCount(arrangement, t, row, cols - 1);
    }
  }

  /** Each row holds as many spots of a type as the template has columns of
      it. */
  lemma {:induction false} PlannedIdsCount(arrangement: seq<SpotType>, t: SpotType, rows: int)
    requires rows >= 0
    ensures |PlannedIds(arrangement, t, rows)| == rows * Occurrences(arrangement, t, |arrangement|)
  {
    if rows > 0 {
      PlannedIdsCount(arrangement, t, rows - 1);
      RowIdsCount(arrangement, t, rows, |arrangement|);
      var x := Occurrences(arrangement, t, |arrangement|);
      assert (rows - 1) * x + x == rows * x;
    }
  }

  /** The two types together fill rows × columns spots. */
  lemma PlannedIdsTotal(arrangement: seq<SpotType>, rows: int)
    requires rows >= 0
    ensures |PlannedIds(arrangement, COMPACT, rows)| + |PlannedIds(arrangement, REGULAR, rows)|
            == rows * |arrangement|
  {
    PlannedIdsCount(arrangement, COMPACT, rows);
    PlannedIdsCount(arrangement, REGULAR, rows);
    RowIdsCount(arrangement, COMPACT, 0, |arrangement|);
    Distribute(rows, Occurrences(arrangement, COMPACT, |arrangement|), Occurrences(arrangement, REGULAR, |arrangement|));
  }

  /** An accepted template has one type per token. */
  lemma ArrangementLength(tokens: seq<string>)
    requires Arrangement(tokens).Ok?
    ensures |Arrangement(tokens).value| == |tokens|
  {
    assert tokens[..|tokens|] == tokens;
    ArrangementPrefixNamed(tokens, |tokens|, Arrangement(tokens).value);
    ArrangementAccepts(tokens);
  }

  lemma Distribute(a: int, b: int, c: int)
    ensures a * b + a * c == a * (b + c)
  {
  }
}
