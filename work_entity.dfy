/** `WorkEntity` of `PyriteCliCommon/Models/WorkEntity.cs`: the table row
    recording that a texture tile of a result set has been processed. Its
    partition key is the result path with path separators flattened and its
    row key names the tile. */
module Models {
  import opened Wrappers
  import Text

  /** `s.Replace(from, to)` for characters: every `from` becomes `to`. */
  function ReplaceChar(s: string, from: char, to: char): (r: string)
    ensures |r| == |s|
    ensures forall i :: 0 <= i < |r| ==> r[i] == (if s[i] == from then to else s[i])
  {
    if s == [] then [] else [if s[0] == from then to else s[0]] + ReplaceChar(s[1..], from, to)
  }

  predicate IsSeparator(c: char)
  {
    c == '/' || c == '\\'
  }

  /** `EncodeResultPath`: forward and back slashes become underscores; the
      length is kept and every other character stays where it was. */
  function EncodeResultPath(path: string): (r: string)
    ensures |r| == |path|
    ensures forall i :: 0 <= i < |path| ==> r[i] == (if IsSeparator(path[i]) then '_' else path[i])
  {
    ReplaceChar(ReplaceChar(path, '/', '_'), '\\', '_')
  }

  /** No separator survives, so the key is a single path segment. */
  lemma {:induction false} EncodedHasNoSeparator(path: string)
    ensures forall i :: 0 <= i < |EncodeResultPath(path)| ==> !IsSeparator(EncodeResultPath(path)[i])
  {
  }

  /** Encoding an encoded path changes nothing. */
  lemma {:induction false} EncodeIdempotent(path: string)
    ensures EncodeResultPath(EncodeResultPath(path)) == EncodeResultPath(path)
  {
  }

  /** Two paths share a partition key exactly when they agree everywhere
      except where each has a separator or `_`: `a/b`, `a\b` and `a_b` all
      land in one partition. */
  lemma {:induction false} EncodeCollision(p: string, q: string)
    ensures EncodeResultPath(p) == EncodeResultPath(q) <==>
      |p| == |q| && forall i :: 0 <= i < |p| ==>
        p[i] == q[i] || ((IsSeparator(p[i]) || p[i] == '_') && (IsSeparator(q[i]) || q[i] == '_'))
  {
    if EncodeResultPath(p) == EncodeResultPath(q) {
      forall i | 0 <= i < |p|
        ensures p[i] == q[i] || ((IsSeparator(p[i]) || p[i] == '_') && (IsSeparator(q[i]) || q[i] == '_'))
      {
        assert EncodeResultPath(p)[i] == EncodeResultPath(q)[i];
      }
    }
  }

  /** `string.Format("{0}_{1}", tileX, tileY)`. */
  function RowKey(tileX: int, tileY: int): string
  {
    Text.IntToString(tileX) + "_" + Text.IntToString(tileY)
  }

  lemma {:induction false} IntToStringNoUnderscore(n: int)
    ensures '_' !in Text.IntToString(n)
  {
    var s := Text.NatToString(if n < 0 then -n else n);
    assert forall i :: 0 <= i < |s| ==> Text.IsDigit(s[i]);
  }

  /** The row key names its tile: split at `_` it gives the two coordinates
      back, so distinct tiles have distinct keys. */
  lemma {:induction false} RowKeyRoundTrip(tileX: int, tileY: int)
    requires Text.Int32Min <= tileX <= Text.Int32Max && Text.Int32Min <= tileY <= Text.Int32Max
    ensures var parts := Text.Split(RowKey(tileX, tileY), '_');
      |parts| == 2 && Text.ParseInt(parts[0]) == Some(tileX) && Text.ParseInt(parts[1]) == Some(tileY)
  {
    var a, b := Text.IntToString(tileX), Text.IntToString(tileY);
    IntToStringNoUnderscore(tileX);
    IntToStringNoUnderscore(tileY);
    assert Text.Join([a, b], '_') == RowKey(tileX, tileY);
    Text.JoinSplit([a, b], '_');
    Text.ParseIntToString(tileX);
    Text.ParseIntToString(tileY);
  }

  /** Distinct tiles get distinct row keys. */
  lemma {:induction false} RowKeyInjective(x1: int, y1: int, x2: int, y2: int)
    requires Text.Int32Min <= x1 <= Text.Int32Max && Text.Int32Min <= y1 <= Text.Int32Max
    requires Text.Int32Min <= x2 <= Text.Int32Max && Text.Int32Min <= y2 <= Text.Int32Max
    ensures RowKey(x1, y1) == RowKey(x2, y2) <==> x1 == x2 && y1 == y2
  {
    RowKeyRoundTrip(x1, y1);
    RowKeyRoundTrip(x2, y2);
  }

  /** The table entity; the completion time is kept as the ticks of the
      `DateTime` it was given. The constructor leaves the metadata unset. */
  class WorkEntity {
    var partitionKey: string
    var rowKey: string
    var completedTime: int
    var textureTileX: int
    var textureTileY: int
    var metadataBase64: string

    constructor (resultPath: string, tileX: int, tileY: int, completed: int)
      ensures partitionKey == EncodeResultPath(resultPath) && rowKey == RowKey(tileX, tileY)
      ensures completedTime == completed && textureTileX == tileX && textureTileY == tileY
    {
      partitionKey := EncodeResultPath(resultPath);
      rowKey := RowKey(tileX, tileY);
      completedTime := completed;
      textureTileX := tileX;
      textureTileY := tileY;
    }
  }
}
