/** A player's name and high score, compared by value on both fields (as AutoValue generates). */
module Players {
  import opened Integers

  datatype Player = Player(name: string, highscore: Int32)
}
