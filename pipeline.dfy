/**
 Where the two programs meet: the server runs the scanner on the uploaded
 file with no "-b" flag and hands its combined standard output and
 standard error to `parseOutput`, unless the scanner exited with a
 non-zero code, in which case the request fails before parsing.  How the
 two streams interleave is not modelled; `CleanRun` shows that when every
 decoded barcode is valid the combined output is standard output alone,
 which is what the other lemmas parse.
 */
module Pipeline {
  import Server
  import Scanner

  /** A run in text mode whose image loaded. */
  predicate TextModeLoaded(argv: seq<string>, loads: string -> bool) {
    |argv| >= 2 && !Scanner.BytesOnly(argv) && loads(Scanner.CStr(Scanner.Filename(argv)))
  }

  /** A loaded image whose barcodes are all valid exits with 0 and writes
      nothing on standard error, in either mode. */
  lemma CleanRun(argv: seq<string>, loads: string -> bool, barcodes: seq<Scanner.Barcode>)
    requires |argv| >= 2 && loads(Scanner.CStr(Scanner.Filename(argv)))
    requires forall i :: 0 <= i < |barcodes| ==> barcodes[i].valid
    ensures var r := Scanner.Expected(argv, loads, barcodes);
      r.exitCode == 0 && r.stderr == ""
  {
    Scanner.AllValidNoStderr(barcodes);
  }

  /** In text mode the record of the first valid barcode comes first on
      standard output: the parser returns its format as the barcode and
      everything after that format's comma as the result. */
  lemma FirstBarcodeParsed(argv: seq<string>, loads: string -> bool, barcodes: seq<Scanner.Barcode>)
    requires TextModeLoaded(argv, loads)
    requires Scanner.ValidOnly(barcodes) != []
    requires ',' !in Scanner.ValidOnly(barcodes)[0].formatName
    ensures var vs := Scanner.ValidOnly(barcodes);
      Server.ParseOutput(Scanner.Expected(argv, loads, barcodes).stdout)
        == Server.Returned(Server.Result(true, vs[0].formatName, vs[0].hex + "\n" + Scanner.Records(vs[1..], false)))
  {
    var vs := Scanner.ValidOnly(barcodes);
    var b, later := vs[0], Scanner.Records(vs[1..], false);
    var out := Scanner.Expected(argv, loads, barcodes).stdout;
    Scanner.StdoutIsRecords(barcodes, false);
    assert out == Scanner.TextLine(b) + later;
    Scanner.TextLineThen(b, later);
    Server.ParseRoundTrip(b.formatName, b.hex + "\n" + later);
  }

  /** The round trip across the two programs: one valid barcode whose format
      name has no comma comes back as `{true, format, hex + "\n"}`. */
  lemma SingleBarcodeRoundTrip(argv: seq<string>, loads: string -> bool, barcodes: seq<Scanner.Barcode>, b: Scanner.Barcode)
    requires TextModeLoaded(argv, loads)
    requires Scanner.ValidOnly(barcodes) == [b]
    requires ',' !in b.formatName
    ensures Server.ParseOutput(Scanner.Expected(argv, loads, barcodes).stdout)
      == Server.Returned(Server.Result(true, b.formatName, b.hex + "\n"))
  {
    FirstBarcodeParsed(argv, loads, barcodes);
    assert [b][1..] == [];
    assert b.hex + "\n" + Scanner.Records([], false) == b.hex + "\n";
  }

  /** Text-mode output never drives the parser into its index panic, whatever
      the format names hold, and the parser reports success exactly when the
      scanner found a valid barcode. */
  lemma TextModeNeverPanics(argv: seq<string>, loads: string -> bool, barcodes: seq<Scanner.Barcode>)
    requires TextModeLoaded(argv, loads)
    ensures var o := Server.ParseOutput(Scanner.Expected(argv, loads, barcodes).stdout);
      o.Returned? && (o.res.success <==> Scanner.ValidOnly(barcodes) != [])
  {
    var vs := Scanner.ValidOnly(barcodes);
    var out := Scanner.Expected(argv, loads, barcodes).stdout;
    Scanner.StdoutIsRecords(barcodes, false);
    if vs != [] {
      var b, later := vs[0], Scanner.Records(vs[1..], false);
      assert out == Scanner.TextLine(b) + later;
      Scanner.TextLineThen(b, later);
      Server.ParseOkLine(b.formatName, b.hex + "\n" + later);
    } else {
      assert out == "";
    }
  }

  /** Bytes mode carries no framing: a barcode whose content is "OK" makes the
      parser panic, which is why the server must not pass "-b". */
  lemma BytesModeCanPanic()
    ensures Server.ParseOutput(Scanner.Expected(["scan", "-b", "ticket.jpg"], _ => true,
      [Scanner.Barcode(true, Scanner.None, "Aztec", "4F4B", "OK")]).stdout) == Server.IndexOutOfRange
  {
    var argv := ["scan", "-b", "ticket.jpg"];
    var b := Scanner.Barcode(true, Scanner.None, "Aztec", "4F4B", "OK");
    Scanner.BytesFlagExactly("-b");
    assert Scanner.BytesOnly(argv);
    assert [b][..0] == [];
    assert Scanner.Stdout([b], true) == "OK";
    Server.CountZero("OK", ',');
    Server.ParsePanicIff("OK");
  }
}
