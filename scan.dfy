/**
 The barcode scanner executable: `main` checks its arguments, picks text or
 raw-bytes mode and the image file, and writes one record per decoded
 barcode. Loading the image (stb_image) and decoding it (ZXing) are inputs
 of the model: `loads` says whether the image named by a C string loads,
 and `barcodes` is what the decoder returned for it. Each `char` stands for
 one byte of a C string or of a stream.
 */
module Scanner {
  import opened Sequences

  datatype Option<T> = None | Some(value: T)

  /** One decoder result, with the library's renderings already applied:
      `error` is `ToString(barcode.error())` when there is an error,
      `formatName` is `ToString(barcode.format())`, `hex` is
      `ToHex(barcode.bytes())` and `bytes` the raw content. */
  datatype Barcode = Barcode(
    valid: bool,
    error: Option<string>,
    formatName: string,
    hex: string,
    bytes: string)

  /** What one run of the program leaves behind. */
  datatype Run = Run(stdout: string, stderr: string, exitCode: int)

  // ---------------------------------------------------------------------
  // C strings
  // ---------------------------------------------------------------------

  /** The byte a C function reads at position `i`: past the end of the
      sequence it reads the terminating NUL. */
  function At(s: string, i: nat): char {
    if i < |s| then s[i] else '\0'
  }

  /** `strlen`: the position of the first NUL. */
  function Strlen(s: string): (k: nat)
    ensures k <= |s|
    ensures forall j :: 0 <= j < k ==> s[j] != '\0'
    ensures k < |s| ==> s[k] == '\0'
  {
    if |s| == 0 || s[0] == '\0' then 0 else 1 + Strlen(s[1..])
  }

  /** The text a `char*` denotes: everything before the first NUL. */
  function CStr(s: string): (c: string)
    ensures '\0' !in c && c <= s
    ensures |c| == |s| || s[|c|] == '\0'
  {
    s[..Strlen(s)]
  }

  /** `strncmp(a, b, n) == 0`, compared from position `i` on: equal bytes up
      to position `n`, or up to a NUL that both share. */
  predicate StrnEqFrom(a: string, b: string, i: nat, n: nat)
    decreases n - i
  {
    i >= n || (At(a, i) == At(b, i) && (At(a, i) == '\0' || StrnEqFrom(a, b, i + 1, n)))
  }

  predicate StrnEq(a: string, b: string, n: nat) {
    StrnEqFrom(a, b, 0, n)
  }

  // ---------------------------------------------------------------------
  // Arguments
  // ---------------------------------------------------------------------

  /** The test on `argv[1]`: longer than one byte, and `strncmp` over its
      own length against "-b" finds no difference. */
  predicate IsBytesFlag(arg: string) {
    Strlen(arg) > 1 && StrnEq(arg, "-b", Strlen(arg))
  }

  /** `bytes_only`: a flag and a file name both follow the program name. */
  predicate BytesOnly(argv: seq<string>) {
    |argv| >= 3 && IsBytesFlag(argv[1])
  }

  /** `filename`: the argument after the flag in bytes mode, the first
      argument otherwise. */
  function Filename(argv: seq<string>): (f: string)
    requires |argv| >= 2
    ensures f == argv[1] || (|argv| >= 3 && f == argv[2])
  {
    if BytesOnly(argv) then argv[2] else argv[1]
  }

  /** `argv[0]` as streamed; with `argc == 0` there is no program name. */
  function ProgramName(argv: seq<string>): string {
    if |argv| == 0 then "" else CStr(argv[0])
  }

  // ---------------------------------------------------------------------
  // What the program writes
  // ---------------------------------------------------------------------

  /** The usage line; the source puts no space between "[-b]" and the name. */
  function UsageMessage(argv: seq<string>): string {
    "ERROR,Usage: [-b]" + ProgramName(argv) + " <image-file>\n"
  }

  function LoadFailureMessage(filename: string): string {
    "ERROR,Failed to load image: " + CStr(filename) + "\n"
  }

  /** The text-mode line of a valid barcode. */
  function TextLine(b: Barcode): string {
    "OK," + b.formatName + "," + b.hex + "\n"
  }

  /** A text line followed by more output still reads `OK,<format>,` first. */
  lemma TextLineThen(b: Barcode, later: string)
    ensures TextLine(b) + later == "OK," + b.formatName + "," + (b.hex + "\n" + later)
  {
    var head := "OK," + b.formatName + ",";
    Associative(head + b.hex, "\n", later);
    Associative(head, b.hex, "\n" + later);
    Associative(b.hex, "\n", later);
  }

  /** The standard-output record of one barcode: nothing when invalid, the raw
      bytes in bytes mode, an `OK,<format>,<hex>` line otherwise. */
  function StdoutEntry(b: Barcode, bytesOnly: bool): string {
    if !b.valid then ""
    else if bytesOnly then b.bytes
    else TextLine(b)
  }

  /** What an invalid barcode writes: `NOT_FOUND`, followed by `,<error>` and
      a newline only when it has an error. */
  function NotFoundRecord(b: Barcode): string {
    "NOT_FOUND" + (if b.error.Some? then "," + b.error.value + "\n" else "")
  }

  /** The standard-error record of one barcode. */
  function StderrEntry(b: Barcode): string {
    if b.valid then "" else NotFoundRecord(b)
  }

  /** Standard output after the loop has handled `bs`. */
  function Stdout(bs: seq<Barcode>, bytesOnly: bool): string {
    if |bs| == 0 then "" else Stdout(bs[..|bs| - 1], bytesOnly) + StdoutEntry(bs[|bs| - 1], bytesOnly)
  }

  /** Standard error after the loop has handled `bs`. */
  function Stderr(bs: seq<Barcode>): string {
    if |bs| == 0 then "" else Stderr(bs[..|bs| - 1]) + StderrEntry(bs[|bs| - 1])
  }

  /** The whole run, as a function of the arguments, the loader and the decoder. */
  function Expected(argv: seq<string>, loads: string -> bool, barcodes: seq<Barcode>): Run {
    if |argv| < 2 then Run("", UsageMessage(argv), 1)
    else if !loads(CStr(Filename(argv))) then Run("", LoadFailureMessage(Filename(argv)), 1)
    else Run(Stdout(barcodes, BytesOnly(argv)), Stderr(barcodes), 0)
  }

  /** `main`: validate the arguments, choose the mode and the file, give up
      when the image does not load, and otherwise write one record per
      decoded barcode before exiting with 0. */
  method Scan(argv: seq<string>, loads: string -> bool, barcodes: seq<Barcode>)
    returns (out: string, err: string, code: int)
    ensures Run(out, err, code) == Expected(argv, loads, barcodes)
  {
    out, err := "", "";
    if |argv| < 2 {
      err := UsageMessage(argv);
      code := 1;
      return;
    }

    var bytesOnly := false;
    var filename: string;
    if |argv| >= 3 && Strlen(argv[1]) > 1 && StrnEq(argv[1], "-b", Strlen(argv[1])) {
      bytesOnly := true;
      filename := argv[2];
    } else {
      filename := argv[1];
    }

    if !loads(CStr(filename)) {
      err := LoadFailureMessage(filename);
      code := 1;
      return;
    }

    for i := 0 to |barcodes|
      invariant out == Stdout(barcodes[..i], bytesOnly)
      invariant err == Stderr(barcodes[..i])
    {
      var barcode := barcodes[i];
      StreamsStep(barcodes, i, bytesOnly);
      if !barcode.valid {
        assert out + StdoutEntry(barcode, bytesOnly) == out;
        err := err + "NOT_FOUND";
        if barcode.error.Some? {
          var detail := "," + barcode.error.value + "\n";
          Associative(Stderr(barcodes[..i]), "NOT_FOUND", detail);
          err := err + detail;
        } else {
          assert NotFoundRecord(barcode) == "NOT_FOUND";
        }
        continue;
      }
      assert err + StderrEntry(barcode) == err;
      if bytesOnly {
        out := out + barcode.bytes;
      } else {
        out := out + TextLine(barcode);
      }
    }
    assert barcodes[..|barcodes|] == barcodes;
    code := 0;
  }

  /** One more barcode handled: each stream grows by that barcode's record. */
  lemma StreamsStep(bs: seq<Barcode>, i: nat, bytesOnly: bool)
    requires i < |bs|
    ensures Stdout(bs[..i + 1], bytesOnly) == Stdout(bs[..i], bytesOnly) + StdoutEntry(bs[i], bytesOnly)
    ensures Stderr(bs[..i + 1]) == Stderr(bs[..i]) + StderrEntry(bs[i])
  {
    assert bs[..i + 1][..i] == bs[..i];
  }

  // ---------------------------------------------------------------------
  // Lemmas: C strings and the mode flag
  // ---------------------------------------------------------------------

  /** Past "-b" the comparison meets the literal's NUL, so it can only
      succeed when the argument ends there too. */
  lemma FlagEndsAtTwo(arg: string)
    requires StrnEqFrom(arg, "-b", 2, Strlen(arg))
    ensures Strlen(arg) <= 2
  {
  }

  /** The flag test accepts exactly the C string "-b". */
  lemma BytesFlagExactly(arg: string)
    ensures IsBytesFlag(arg) <==> CStr(arg) == "-b"
  {
    var k := Strlen(arg);
    if IsBytesFlag(arg) {
      assert At(arg, 0) == '-' && StrnEqFrom(arg, "-b", 1, k);
      assert At(arg, 1) == 'b';
      assert StrnEqFrom(arg, "-b", 2, k);
      FlagEndsAtTwo(arg);
      assert |CStr(arg)| == 2 && CStr(arg)[0] == '-' && CStr(arg)[1] == 'b';
    }
    if CStr(arg) == "-b" {
      assert k == 2 && arg[0] == CStr(arg)[0] && arg[1] == CStr(arg)[1];
      assert StrnEqFrom(arg, "-b", 2, 2);
      assert StrnEqFrom(arg, "-b", 1, 2);
    }
  }

  /** Bytes mode is selected exactly by "-b" followed by at least one more argument. */
  lemma BytesOnlyIff(argv: seq<string>)
    ensures BytesOnly(argv) <==> |argv| >= 3 && CStr(argv[1]) == "-b"
  {
    if |argv| >= 3 {
      BytesFlagExactly(argv[1]);
    }
  }

  /** Near misses do not select bytes mode; a NUL ends the flag as in C. */
  lemma BytesFlagExamples()
    ensures IsBytesFlag("-b")
    ensures !IsBytesFlag("-") && !IsBytesFlag("-bx") && !IsBytesFlag("-c") && !IsBytesFlag("")
    ensures IsBytesFlag("-b\0x")
  {
    BytesFlagExactly("-b");
    BytesFlagExactly("-");
    BytesFlagExactly("-bx");
    BytesFlagExactly("-c");
    BytesFlagExactly("");
    BytesFlagExactly("-b\0x");
    assert CStr("-b\0x") == "-b";
  }

  /** A lone "-b" is not a flag but the file name. */
  lemma LoneFlagIsFilename(program: string)
    ensures !BytesOnly([program, "-b"]) && Filename([program, "-b"]) == "-b"
  {
  }

  /** With "-b" and a file name, the file name is the second argument;
      without a flag, the first. */
  lemma FilenameChoice(argv: seq<string>)
    requires |argv| >= 2
    ensures |argv| >= 3 && CStr(argv[1]) == "-b" ==> Filename(argv) == argv[2]
    ensures CStr(argv[1]) != "-b" ==> Filename(argv) == argv[1]
    ensures |argv| == 2 ==> Filename(argv) == argv[1]
  {
    BytesOnlyIff(argv);
  }

  // ---------------------------------------------------------------------
  // Lemmas: exit codes and the streams
  // ---------------------------------------------------------------------

  /** Without an image argument: exit code 1, nothing on standard output,
      and an `ERROR,` line on standard error. */
  lemma UsageError(argv: seq<string>, loads: string -> bool, barcodes: seq<Barcode>)
    requires |argv| < 2
    ensures var r := Expected(argv, loads, barcodes);
      r.exitCode == 1 && r.stdout == "" && |r.stderr| >= 6 && r.stderr[..6] == "ERROR,"
  {
  }

  /** An image that does not load: exit code 1, nothing on standard output,
      and an `ERROR,` line naming the file on standard error. */
  lemma LoadFailure(argv: seq<string>, loads: string -> bool, barcodes: seq<Barcode>)
    requires |argv| >= 2 && !loads(CStr(Filename(argv)))
    ensures var r := Expected(argv, loads, barcodes);
      && r.exitCode == 1 && r.stdout == "" && |r.stderr| >= 6 && r.stderr[..6] == "ERROR,"
      && r.stderr[28..28 + |CStr(Filename(argv))|] == CStr(Filename(argv))
  {
  }

  /** The exit code is 0 exactly when there is an image argument and the
      image loads, whatever the decoder found; 1 otherwise. */
  lemma ExitCodeIff(argv: seq<string>, loads: string -> bool, barcodes: seq<Barcode>)
    ensures var r := Expected(argv, loads, barcodes);
      && (r.exitCode == 0 <==> |argv| >= 2 && loads(CStr(Filename(argv))))
      && (r.exitCode == 0 || r.exitCode == 1)
  {
  }

  lemma {:induction false} StdoutAppend(xs: seq<Barcode>, ys: seq<Barcode>, bytesOnly: bool)
    ensures Stdout(xs + ys, bytesOnly) == Stdout(xs, bytesOnly) + Stdout(ys, bytesOnly)
    decreases |ys|
  {
    if |ys| == 0 {
      assert xs + ys == xs;
    } else {
      var init, last := ys[..|ys| - 1], ys[|ys| - 1];
      var zs := xs + ys;
      assert zs[..|zs| - 1] == xs + init;
      assert zs[|zs| - 1] == last;
      StdoutAppend(xs, init, bytesOnly);
      Associative(Stdout(xs, bytesOnly), Stdout(init, bytesOnly), StdoutEntry(last, bytesOnly));
      calc {
        Stdout(zs, bytesOnly);
        Stdout(xs + init, bytesOnly) + StdoutEntry(last, bytesOnly);
        Stdout(xs, bytesOnly) + Stdout(init, bytesOnly) + StdoutEntry(last, bytesOnly);
        Stdout(xs, bytesOnly) + Stdout(ys, bytesOnly);
      }
    }
  }

  lemma {:induction false} StderrAppend(xs: seq<Barcode>, ys: seq<Barcode>)
    ensures Stderr(xs + ys) == Stderr(xs) + Stderr(ys)
    decreases |ys|
  {
    if |ys| == 0 {
      assert xs + ys == xs;
    } else {
      var init, last := ys[..|ys| - 1], ys[|ys| - 1];
      var zs := xs + ys;
      assert zs[..|zs| - 1] == xs + init;
      assert zs[|zs| - 1] == last;
      StderrAppend(xs, init);
      Associative(Stderr(xs), Stderr(init), StderrEntry(last));
      calc {
        Stderr(zs);
        Stderr(xs + init) + StderrEntry(last);
        Stderr(xs) + Stderr(init) + StderrEntry(last);
        Stderr(xs) + Stderr(ys);
      }
    }
  }

  /** The barcodes that reach standard output, in decode order. */
  function ValidOnly(bs: seq<Barcode>): (vs: seq<Barcode>)
    ensures |vs| <= |bs|
    ensures forall i :: 0 <= i < |vs| ==> vs[i].valid && vs[i] in bs
    ensures forall b :: b in bs && b.valid ==> b in vs
  {
    if |bs| == 0 then []
    else if bs[0].valid then [bs[0]] + ValidOnly(bs[1..])
    else ValidOnly(bs[1..])
  }

  /** The records of valid barcodes, first to last. */
  function Records(vs: seq<Barcode>, bytesOnly: bool): string {
    if |vs| == 0 then ""
    else
      var record := if bytesOnly then vs[0].bytes else TextLine(vs[0]);
      record + Records(vs[1..], bytesOnly)
  }

  /** Standard output is one record per valid barcode in decode order:
      an `OK,<format>,<hex>` line in text mode, the raw bytes with no
      separator in bytes mode; invalid barcodes add nothing. */
  lemma {:induction false} StdoutIsRecords(bs: seq<Barcode>, bytesOnly: bool)
    ensures Stdout(bs, bytesOnly) == Records(ValidOnly(bs), bytesOnly)
    decreases |bs|
  {
    if |bs| > 0 {
      var init, last := bs[..|bs| - 1], bs[|bs| - 1];
      assert bs == init + [last];
      StdoutIsRecords(init, bytesOnly);
      ValidOnlyAppend(init, [last]);
      RecordsAppend(ValidOnly(init), ValidOnly([last]), bytesOnly);
      LastRecord(last, bytesOnly);
    }
  }

  /** One barcode on its own: its records are its standard-output entry. */
  lemma LastRecord(b: Barcode, bytesOnly: bool)
    ensures Records(ValidOnly([b]), bytesOnly) == StdoutEntry(b, bytesOnly)
  {
    assert [b][1..] == [];
    if b.valid {
      assert ValidOnly([b]) == [b];
    }
  }

  /** Records of two lists of barcodes concatenate. */
  lemma {:induction false} RecordsAppend(xs: seq<Barcode>, ys: seq<Barcode>, bytesOnly: bool)
    ensures Records(xs + ys, bytesOnly) == Records(xs, bytesOnly) + Records(ys, bytesOnly)
  {
    if |xs| == 0 {
      assert xs + ys == ys;
    } else {
      assert (xs + ys)[0] == xs[0] && (xs + ys)[1..] == xs[1..] + ys;
      RecordsAppend(xs[1..], ys, bytesOnly);
      var record := if bytesOnly then xs[0].bytes else TextLine(xs[0]);
      Associative(record, Records(xs[1..], bytesOnly), Records(ys, bytesOnly));
    }
  }

  /** Filtering keeps decode order: the valid barcodes of two lists are
      those of the first followed by those of the second. */
  lemma {:induction false} ValidOnlyAppend(xs: seq<Barcode>, ys: seq<Barcode>)
    ensures ValidOnly(xs + ys) == ValidOnly(xs) + ValidOnly(ys)
  {
    if |xs| == 0 {
      assert xs + ys == ys;
    } else {
      assert (xs + ys)[0] == xs[0] && (xs + ys)[1..] == xs[1..] + ys;
      ValidOnlyAppend(xs[1..], ys);
    }
  }

  /** When no barcode is valid, standard output stays empty. */
  lemma NoValidNoStdout(bs: seq<Barcode>, bytesOnly: bool)
    requires forall i :: 0 <= i < |bs| ==> !bs[i].valid
    ensures Stdout(bs, bytesOnly) == ""
  {
    StdoutIsRecords(bs, bytesOnly);
  }

  /** When every barcode is valid, standard error stays empty. */
  lemma {:induction false} AllValidNoStderr(bs: seq<Barcode>)
    requires forall i :: 0 <= i < |bs| ==> bs[i].valid
    ensures Stderr(bs) == ""
  {
    if |bs| > 0 {
      AllValidNoStderr(bs[..|bs| - 1]);
    }
  }

  /** Two invalid barcodes without an error message run together on
      standard error: `NOT_FOUNDNOT_FOUND`, with no newline between them. */
  lemma NotFoundRunsTogether(b: Barcode)
    requires !b.valid && b.error.None?
    ensures Stderr([b, b]) == "NOT_FOUNDNOT_FOUND"
  {
    assert [b, b][..1] == [b];
    assert [b][..0] == [];
    assert NotFoundRecord(b) == "NOT_FOUND";
    assert Stderr([b]) == "NOT_FOUND";
  }
}
