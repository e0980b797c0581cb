/** The command of one player for one tic. */
module DoomCmd {
  import opened Octets

  /** `rest` stands for the fields that nothing here looks at. */
  datatype Cmd = Cmd(forward: int, side: int, turn: int, chat: byte, buttons: byte, rest: int) {
    predicate Valid() {
      -128 <= forward < 128 && -128 <= side < 128 && -32768 <= turn < 32768
    }
  }

  const EMPTY := Cmd(0, 0, 0, 0, 0, 0)
}
