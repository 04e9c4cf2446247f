/** The message texts of kernel/kernel.c, kernel/shell.c and the set-up that kernel/kernel.c calls. */
module Messages {
  import opened Bytes

  /** A C string literal. */
  type Text = t: seq<byte> | NUL !in t

  /** One that ends its line. */
  type Line = t: Text | t != [] && t[|t| - 1] == NEWLINE witness [NEWLINE]

  /** Adjacent literals. */
  function Joined(a: Text, b: Line): Line { a + b }

  const GDT_LOADED: Line := Ascii("GDT Loaded.\n")
  const IDT_LOADED: Line := Ascii("IDT Loaded.\n")
  const INTERRUPTS: Line := Ascii("Interrupts enabled.\n")
  const MOTD: Text := Ascii("./motd.txt")
  const PROMPT: Text := [62, SPACE]
  const UNKNOWN: Text := Ascii("Kernel command \"")
  const UNKNOWN_END: Line := Ascii("\" does not exist.\n")
  const USAGE: Line := Ascii("Usage: cat <filename.txt>\n")
  const NOT_FOUND: Line := Ascii("File not found on A: drive.\n")
  const HELP_CLEAR: Line := Ascii("clear       Clear the screen.\n")
  const HELP_LS: Line := Ascii("ls          List files in ramdisk.\n")
  const HELP_CAT: Line := Ascii("cat         Read a file.\n")
  const HELP_CD: Line := Ascii("cd          Change directory.\n")
  const HELP_LAYOUT: Line :=
    Joined(Ascii("layout      List or "), Ascii("change keyboard layout.\n"))
  const HELP_UPTIME: Line :=
    Joined(Ascii("uptime      Get "), Ascii("system uptime in seconds.\n"))
  const HELP_ECHO: Line := Ascii("echo        Print arguments.\n")
  const HELP_REBOOT: Line := Ascii("reboot      Reboot.\n")
  const DRIVE_A: Line := Ascii("A:\\\n")
  const NO_DIRECTORY: Line :=
    Joined(Ascii("Directory not found or "), Joined(Ascii("subdirectories "), Ascii("not supported yet.\n")))
  const FR_CA: Text := Ascii("fr_ca")
  const EN_US: Text := Ascii("en_us")
  const FR_CA_SET: Line :=
    Joined(Ascii("Keyboard layout set to "), Joined(Ascii("Canadian "), Ascii("Multilingual Standard\n")))
  const EN_US_SET: Line := Ascii("Keyboard layout set to ANSI.\n")
  const LAYOUTS: Line := Ascii("Supported Layouts\n")
  const RULE: Line := Ascii("-------------------------------------\n")
  const LAYOUT_US: Line := Ascii("en_us   ANSI\n")
  const LAYOUT_CA: Line := Joined(Ascii("fr_ca   Canadian "), Ascii("Multilingual Standard\n"))
  const UPTIME_IS: Text := Ascii("Uptime: ")
  const SECONDS: Text := Ascii(" seconds (")
  const TICKS: Line := Ascii(" ticks)\n")
  const REBOOTING: Line := Ascii("Rebooting...\n")

  lemma TextWhole(t: Text)
    ensures CStr(t, 0) == t
  {
    CStrUnique(t, 0, t);
  }
}
