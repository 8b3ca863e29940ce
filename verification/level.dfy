/** Embedding levels and the direction their parity denotes. */
module Level {
  import opened BidiTypes

  /** The deepest explicit embedding level (max_depth of UAX #9, section 3.3.2). */
  const MaxValue: Byte := 125
  const MinValue: Byte := 0

  /** The direction of text embedded at `level`: L when even, R when odd. */
  function LevelToEmbeddingType(level: Byte): (t: CharType)
    ensures t == L <==> level % 2 == 0
    ensures t == R <==> level % 2 == 1
  {
    if level % 2 == 0 then L else R
  }

  /** The direction opposite to the embedding direction of `level`. */
  function LevelToOppositeType(level: Byte): (t: CharType)
    ensures t == R <==> level % 2 == 0
    ensures t == L <==> level % 2 == 1
  {
    if level % 2 == 0 then R else L
  }

  /** For every level, the two directions are distinct strong directions. */
  lemma DirectionsDistinct(level: Byte)
    ensures IsDirection(LevelToEmbeddingType(level))
    ensures IsDirection(LevelToOppositeType(level))
    ensures LevelToEmbeddingType(level) != LevelToOppositeType(level)
  {
  }
}
