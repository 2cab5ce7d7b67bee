/** The key codes the controller switches on. A key is the wide character that
    get_wch delivers; function keys arrive as the curses codes below (ncurses
    values), so a typed code point equal to one of them acts as that key. */
module Keys {

  const Newline: char := 10 as char
  const Escape: char := 27 as char
  const Rubout: char := 127 as char

  const KeyDown: char := 258 as char
  const KeyUp: char := 259 as char
  const KeyLeft: char := 260 as char
  const KeyRight: char := 261 as char
  const KeyHome: char := 262 as char
  const KeyBackspace: char := 263 as char
  const KeyDc: char := 330 as char
  const KeyEnd: char := 360 as char
}
