/**
 * The segmented video sink of `ia2/context.py`: `FfmpegProxy` names its
 * part files after the output file, starts a part lazily on the first
 * frame, rotates to a new part when its frame counter passes the cap, and
 * at the end either does nothing, renames the single part, or concatenates
 * all parts. The encoder process is modelled as an abstract sink that
 * appends every written frame to the current part.
 */
module VideoSink {
  import opened Base

  // ---------------------------------------------------------------------
  // File names
  // ---------------------------------------------------------------------

  /** `s.rfind(c)`: the last position of `c`, or -1. */
  function RFind(s: string, c: char): (r: int)
    ensures -1 <= r < |s|
    ensures 0 <= r ==> s[r] == c
    ensures forall j :: r < j < |s| ==> s[j] != c
  {
    if |s| == 0 then -1
    else if s[|s| - 1] == c then |s| - 1
    else RFind(s[..|s| - 1], c)
  }

  /**
   * POSIX `os.path.splitext`: the extension starts at the last '.' after
   * the last '/', provided some character other than '.' precedes it
   * within the last path component (so ".bashrc" has no extension).
   */
  function SplitExt(p: string): (r: (string, string))
    ensures r.0 + r.1 == p
    ensures r.1 == [] || (r.1[0] == '.' && '.' !in r.1[1..] && '/' !in r.1)
  {
    var si := RFind(p, '/');
    var di := RFind(p, '.');
    if si < di && exists k :: si + 1 <= k < di && p[k] != '.' then
      assert p[..di] + p[di..] == p;
      assert forall j :: 0 <= j < |p[di..]| ==> p[di..][j] == p[di + j];
      (p[..di], p[di..])
    else
      (p, [])
  }

  lemma SplitExtExamples()
    ensures SplitExt("out/movie.mp4") == ("out/movie", ".mp4")
    ensures SplitExt(".hidden") == (".hidden", "")
  {
    var s := "out/movie.mp4";
    assert s[3] == '/' && s[9] == '.' && s[4] != '.';
    assert RFind(s, '/') == 3;
    assert RFind(s, '.') == 9;
    assert SplitExt(s) == (s[..9], s[9..]);
    assert s[..9] == "out/movie";
    var h := ".hidden";
    assert h[0] == '.';
    assert RFind(h, '.') == 0;
  }

  /** Decimal digits of `n`, most significant first, without leading zeros. */
  function Digits(n: nat): (s: string)
    ensures 1 <= |s|
    ensures forall i :: 0 <= i < |s| ==> '0' <= s[i] <= '9'
  {
    if n < 10 then [DigitChar(n)] else Digits(n / 10) + [DigitChar(n % 10)]
  }

  function DigitChar(d: nat): (c: char)
    requires d < 10
    ensures '0' <= c <= '9'
  {
    (48 + d) as char
  }

  /** The value of a string of decimal digits, read left to right from `acc`. */
  function ParseFrom(acc: nat, s: string): nat
    requires forall i :: 0 <= i < |s| ==> '0' <= s[i] <= '9'
    decreases |s|
  {
    if |s| == 0 then acc else ParseFrom(acc * 10 + (s[0] as int - 48), s[1..])
  }

  function Zeros(k: nat): (s: string)
    ensures |s| == k && forall i :: 0 <= i < k ==> s[i] == '0'
  {
    seq(k, _ => '0')
  }

  /** `f"{n:04d}"` for a non-negative `n`: zero-padded to at least four digits. */
  function Pad4(n: nat): (s: string)
    ensures 4 <= |s|
    ensures forall i :: 0 <= i < |s| ==> '0' <= s[i] <= '9'
  {
    var d := Digits(n);
    if |d| < 4 then Zeros(4 - |d|) + d else d
  }

  lemma {:induction false} ParseFromAppend(acc: nat, a: string, b: string)
    requires forall i :: 0 <= i < |a| ==> '0' <= a[i] <= '9'
    requires forall i :: 0 <= i < |b| ==> '0' <= b[i] <= '9'
    ensures ParseFrom(acc, a + b) == ParseFrom(ParseFrom(acc, a), b)
    decreases |a|
  {
    if |a| == 0 {
      assert a + b == b;
    } else {
      assert (a + b)[0] == a[0];
      assert (a + b)[1..] == a[1..] + b;
      ParseFromAppend(acc * 10 + (a[0] as int - 48), a[1..], b);
    }
  }

  lemma {:induction false} ParseZeros(k: nat)
    ensures ParseFrom(0, Zeros(k)) == 0
  {
    if k > 0 {
      assert Zeros(k)[1..] == Zeros(k - 1);
      ParseZeros(k - 1);
    }
  }

  lemma {:induction false} ParseDigits(n: nat)
    ensures ParseFrom(0, Digits(n)) == n
  {
    if n >= 10 {
      ParseDigits(n / 10);
      ParseFromAppend(0, Digits(n / 10), [DigitChar(n % 10)]);
    }
  }

  /** Reading the padded number back gives the part number. */
  lemma {:induction false} Pad4RoundTrip(n: nat)
    ensures ParseFrom(0, Pad4(n)) == n
  {
    var d := Digits(n);
    ParseDigits(n);
    if |d| < 4 {
      ParseFromAppend(0, Zeros(4 - |d|), d);
      ParseZeros(4 - |d|);
    }
  }

  /** The name `start_process` gives part `k` of output `base + ext`. */
  function PartName(base: string, ext: string, k: nat): (name: string)
    ensures |name| == |base| + 1 + |Pad4(k)| + |ext|
    ensures name[..|base|] == base && name[|base|] == '.'
    ensures name[|name| - |ext|..] == ext
  {
    base + "." + Pad4(k) + ext
  }

  /** Distinct part numbers give distinct file names, so no part overwrites another. */
  lemma {:induction false} PartNamesDistinct(base: string, ext: string, j: nat, k: nat)
    requires j != k
    ensures PartName(base, ext, j) != PartName(base, ext, k)
  {
    if PartName(base, ext, j) == PartName(base, ext, k) {
      var a, b := PartName(base, ext, j), PartName(base, ext, k);
      assert |Pad4(j)| == |Pad4(k)|;
      assert a[|base| + 1..|a| - |ext|] == Pad4(j);
      assert b[|base| + 1..|b| - |ext|] == Pad4(k);
      Pad4RoundTrip(j);
      Pad4RoundTrip(k);
      assert false;
    }
  }

  lemma PartNameExample()
    ensures PartName("movie", ".mp4", 7) == "movie.0007.mp4"
  {
    assert Digits(7) == "7";
    assert Pad4(7) == "0007";
  }

  // ---------------------------------------------------------------------
  // The proxy
  // ---------------------------------------------------------------------

  /** `self.max_frames = 60 * 60`. */
  const MaxFrames: nat := 3600

  /**
   * The fields of `FfmpegProxy` the bookkeeping uses. `active` stands for
   * `writing_process is not None`, `filename` for the attribute that
   * `start_process` creates, and `contents[i]` for the frames piped into
   * part `i`.
   */
  datatype Proxy<D> = Proxy(
    finalName: string,
    base: string,
    ext: string,
    partNumber: nat,
    maxFrames: nat,
    frameCount: int,
    parts: seq<string>,
    filename: Option<string>,
    active: bool,
    contents: seq<seq<D>>)

  /**
   * The bookkeeping invariant: one name and one content list per started
   * part, named in order; the counter stays in `[0, max_frames]`; the last
   * part holds one frame more than the counter says.
   */
  predicate Valid<D>(p: Proxy<D>)
  {
    && |p.contents| == |p.parts| == p.partNumber
    && Named(p.parts, p.base, p.ext)
    && 0 <= p.frameCount <= p.maxFrames
    && (|p.parts| == 0 ==> p.frameCount == 0 && !p.active && p.filename.None?)
    && (|p.parts| > 0 ==>
          p.filename == Some(p.parts[|p.parts| - 1])
          && |p.contents[|p.contents| - 1]| == p.frameCount + 1)
  }

  /** Part `i` is called `PartName(base, ext, i)`. */
  predicate Named(parts: seq<string>, base: string, ext: string)
  {
    forall i {:trigger PartName(base, ext, i)} :: 0 <= i < |parts| ==> parts[i] == PartName(base, ext, i)
  }

  lemma NamedSnoc(parts: seq<string>, base: string, ext: string)
    requires Named(parts, base, ext)
    ensures Named(parts + [PartName(base, ext, |parts|)], base, ext)
  {
  }

  /** `FfmpegProxy(filename, ...)`. */
  function NewProxy<D>(filename: string): (p: Proxy<D>)
    ensures Valid(p) && !p.active && p.parts == [] && p.maxFrames == MaxFrames
    ensures p.base + p.ext == filename && p.finalName == filename
  {
    var (base, ext) := SplitExt(filename);
    Proxy(filename, base, ext, 0, MaxFrames, 0, [], None, false, [])
  }

  /** `start_process`: name and register the next part and open it for writing. */
  function Start<D>(p: Proxy<D>): (q: Proxy<D>)
    ensures q.parts == p.parts + [PartName(p.base, p.ext, p.partNumber)]
    ensures q.partNumber == p.partNumber + 1
    ensures q.filename == Some(PartName(p.base, p.ext, p.partNumber))
    ensures q.frameCount == 0 && q.active
    ensures q.contents == p.contents + [[]]
    ensures q.finalName == p.finalName && q.base == p.base && q.ext == p.ext && q.maxFrames == p.maxFrames
  {
    var name := PartName(p.base, p.ext, p.partNumber);
    p.(filename := Some(name), parts := p.parts + [name], partNumber := p.partNumber + 1,
       active := true, frameCount := 0, contents := p.contents + [[]])
  }

  /** `stop_process`: close the current part if one is open. */
  function Stop<D>(p: Proxy<D>): (q: Proxy<D>)
    ensures !q.active
    ensures q.(active := p.active) == p
  {
    if p.active then p.(active := false) else p
  }

  /** Stopping twice is stopping once; stopping an idle proxy changes nothing. */
  lemma StopIdempotent<D>(p: Proxy<D>)
    ensures Stop(Stop(p)) == Stop(p)
    ensures !p.active ==> Stop(p) == p
  {
  }

  function AppendToLast<D>(contents: seq<seq<D>>, d: D): (r: seq<seq<D>>)
    requires |contents| > 0
    ensures |r| == |contents| && r[..|r| - 1] == contents[..|contents| - 1]
    ensures r[|r| - 1] == contents[|contents| - 1] + [d]
  {
    contents[|contents| - 1 := contents[|contents| - 1] + [d]]
  }

  /**
   * The part of `write(data)` before the pipe write: count the frame,
   * rotate to a new part if the counter passed the cap, and start a part
   * if none is open. Afterwards a part is open whose frames are one fewer
   * than the invariant asks for.
   */
  function Open<D>(p: Proxy<D>): (q: Proxy<D>)
    requires Valid(p)
    ensures q.active && |q.contents| == |q.parts| == q.partNumber > 0
    ensures Named(q.parts, q.base, q.ext)
    ensures 0 <= q.frameCount <= q.maxFrames
    ensures q.filename == Some(q.parts[|q.parts| - 1])
    ensures |q.contents[|q.contents| - 1]| == q.frameCount
    ensures q.finalName == p.finalName && q.base == p.base && q.ext == p.ext && q.maxFrames == p.maxFrames
    ensures p.active && p.frameCount < p.maxFrames ==>
              q.contents == p.contents && q.parts == p.parts && q.frameCount == p.frameCount + 1
    ensures !p.active || p.frameCount == p.maxFrames ==>
              q.contents == p.contents + [[]] && q.frameCount == 0
              && q.parts == p.parts + [PartName(p.base, p.ext, p.partNumber)]
  {
    var p1 := p.(frameCount := p.frameCount + 1);
    NamedSnoc(p.parts, p.base, p.ext);
    if p1.frameCount > p1.maxFrames then Start(Stop(p1))
    else if !p1.active then Start(p1)
    else p1
  }

  /**
   * `write(data)`: after `Open`, pipe the frame into the open part. No
   * frame is dropped: the parts together grow by exactly this frame.
   */
  function Write<D>(p: Proxy<D>, d: D): (q: Proxy<D>)
    requires Valid(p)
    ensures Valid(q) && q.active
    ensures q.finalName == p.finalName && q.base == p.base && q.ext == p.ext && q.maxFrames == p.maxFrames
    ensures Flatten(q.contents) == Flatten(p.contents) + [d]
    ensures p.active && p.frameCount < p.maxFrames ==>
              q.parts == p.parts && q.frameCount == p.frameCount + 1
              && q.contents == AppendToLast(p.contents, d)
    ensures !p.active || p.frameCount == p.maxFrames ==>
              q.parts == p.parts + [PartName(p.base, p.ext, p.partNumber)] && q.frameCount == 0
              && q.contents == p.contents + [[d]]
  {
    var o := Open(p);
    FlattenSnocLast(o.contents, d);
    if !p.active || p.frameCount == p.maxFrames then
      AppendToFresh(p.contents, d);
      o.(contents := AppendToLast(o.contents, d))
    else
      o.(contents := AppendToLast(o.contents, d))
  }

  lemma AppendToFresh<D>(parts: seq<seq<D>>, d: D)
    ensures AppendToLast(parts + [[]], d) == parts + [[d]]
  {
    var r := AppendToLast(parts + [[]], d);
    assert (parts + [[]])[..|parts|] == parts;
    assert r[|parts|] == [d];
    assert r == r[..|parts|] + [r[|parts|]];
  }

  /** All frames of all parts, in part order. */
  function Flatten<D>(parts: seq<seq<D>>): seq<D>
  {
    if |parts| == 0 then [] else Flatten(parts[..|parts| - 1]) + parts[|parts| - 1]
  }

  lemma {:induction false} FlattenSnoc<D>(parts: seq<seq<D>>, last: seq<D>)
    ensures Flatten(parts + [last]) == Flatten(parts) + last
  {
    assert (parts + [last])[..|parts|] == parts;
  }

  lemma {:induction false} FlattenSnocLast<D>(parts: seq<seq<D>>, d: D)
    requires |parts| > 0
    ensures Flatten(AppendToLast(parts, d)) == Flatten(parts) + [d]
  {
    var r := AppendToLast(parts, d);
    var n := |parts|;
    assert r[..n - 1] == parts[..n - 1];
    calc {
      Flatten(r);
      Flatten(r[..n - 1]) + r[n - 1];
      Flatten(parts[..n - 1]) + (parts[n - 1] + [d]);
      (Flatten(parts[..n - 1]) + parts[n - 1]) + [d];
      Flatten(parts) + [d];
    }
  }

  /** A sequence of `write` calls, first frame first. */
  function WriteAll<D>(p: Proxy<D>, ds: seq<D>): (q: Proxy<D>)
    requires Valid(p)
    ensures Valid(q)
    ensures q.finalName == p.finalName && q.base == p.base && q.ext == p.ext && q.maxFrames == p.maxFrames
    ensures |ds| > 0 ==> q.active
    decreases |ds|
  {
    if |ds| == 0 then p else WriteAll(Write(p, ds[0]), ds[1..])
  }

  /** Across any number of writes, the parts grow by exactly the written frames. */
  lemma {:induction false} WriteAllKeepsFrames<D>(p: Proxy<D>, ds: seq<D>)
    requires Valid(p)
    ensures Flatten(WriteAll(p, ds).contents) == Flatten(p.contents) + ds
    decreases |ds|
  {
    if |ds| > 0 {
      var q := Write(p, ds[0]);
      calc {
        Flatten(WriteAll(p, ds).contents);
        Flatten(WriteAll(q, ds[1..]).contents);
        { WriteAllKeepsFrames(q, ds[1..]); }
        Flatten(q.contents) + ds[1..];
        (Flatten(p.contents) + [ds[0]]) + ds[1..];
        { ConsTail(ds); }
        Flatten(p.contents) + ds;
      }
    }
  }

  lemma ConsTail<T>(s: seq<T>)
    requires |s| > 0
    ensures [s[0]] + s[1..] == s
  {
  }

  /** The counter after `n` writes is `(n - 1) % (cap + 1)`: one step of the arithmetic. */
  lemma RotationStep(n: nat)
    requires 1 <= n
    ensures (n - 1) % (MaxFrames + 1) == MaxFrames ==>
              n % (MaxFrames + 1) == 0 && n / (MaxFrames + 1) == (n - 1) / (MaxFrames + 1) + 1
    ensures (n - 1) % (MaxFrames + 1) != MaxFrames ==>
              n % (MaxFrames + 1) == (n - 1) % (MaxFrames + 1) + 1
              && n / (MaxFrames + 1) == (n - 1) / (MaxFrames + 1)
  {
  }

  /**
   * The shape of the parts after `n >= 1` writes from a fresh proxy: every
   * part but the last holds `cap + 1` frames, the last one
   * `(n - 1) % (cap + 1) + 1`, and the counter is `(n - 1) % (cap + 1)`.
   */
  ghost predicate Rotated<D>(q: Proxy<D>, n: nat)
  {
    var m := MaxFrames + 1;
    && q.active && q.maxFrames == MaxFrames && |q.contents| > 0
    && |q.parts| == (n - 1) / m + 1
    && q.frameCount == (n - 1) % m
    && (forall i :: 0 <= i < |q.contents| - 1 ==> |q.contents[i]| == m)
    && |q.contents[|q.contents| - 1]| == (n - 1) % m + 1
  }

  lemma {:induction false} WriteRotates<D>(p: Proxy<D>, n: nat, d: D)
    requires Valid(p) && 1 <= n && Rotated(p, n)
    ensures Rotated(Write(p, d), n + 1)
  {
    RotationStep(n);
    var q := Write(p, d);
    if p.frameCount == MaxFrames {
      forall i | 0 <= i < |q.contents| - 1
        ensures |q.contents[i]| == MaxFrames + 1
      {
        if i < |p.contents| - 1 {
          assert q.contents[i] == p.contents[i];
        }
      }
    } else {
      forall i | 0 <= i < |q.contents| - 1
        ensures |q.contents[i]| == MaxFrames + 1
      {
        assert q.contents[i] == q.contents[..|q.contents| - 1][i];
      }
    }
  }

  lemma {:induction false} WriteAllRotates<D>(p: Proxy<D>, n: nat, ds: seq<D>)
    requires Valid(p) && 1 <= n && Rotated(p, n)
    ensures Rotated(WriteAll(p, ds), n + |ds|)
    decreases |ds|
  {
    if |ds| > 0 {
      WriteRotates(p, n, ds[0]);
      WriteAllRotates(Write(p, ds[0]), n + 1, ds[1..]);
    }
  }

  /**
   * The rotation count. Starting from a fresh proxy, `n >= 1` writes open
   * `(n - 1) / (cap + 1) + 1` parts: every part but the last received
   * exactly `cap + 1` frames (the counter is bumped before it is compared
   * and reset to 0 by `start_process`), the last one received
   * `(n - 1) % (cap + 1) + 1`, and the parts together hold every frame in
   * order.
   */
  lemma {:induction false} RotationCount<D>(filename: string, ds: seq<D>)
    requires |ds| >= 1
    ensures var q := WriteAll(NewProxy<D>(filename), ds);
            var m := MaxFrames + 1;
            && |q.parts| == (|ds| - 1) / m + 1
            && q.frameCount == (|ds| - 1) % m
            && (forall i :: 0 <= i < |q.parts| - 1 ==> |q.contents[i]| == m)
            && |q.contents[|q.contents| - 1]| == (|ds| - 1) % m + 1
            && Flatten(q.contents) == ds
  {
    var p := NewProxy<D>(filename);
    var first := Write(p, ds[0]);
    assert Rotated(first, 1);
    WriteAllRotates(first, 1, ds[1..]);
    WriteAllKeepsFrames(p, ds);
    assert Flatten(p.contents) == [];
  }

  // ---------------------------------------------------------------------
  // Finishing
  // ---------------------------------------------------------------------

  /** What `combine_parts` does with the files. */
  datatype Combine =
    | NoParts                                        // only a message is printed
    | Rename(from: string, to: string)               // the single part becomes the output
    | Concat(manifest: seq<string>, to: string)      // ffmpeg's concat demuxer joins the parts

  /** `combine_parts`. */
  function CombineParts<D>(p: Proxy<D>): (c: Combine)
    requires Valid(p)
    ensures |p.parts| == 0 <==> c == NoParts
    ensures |p.parts| == 1 <==> c.Rename?
    ensures c.Rename? ==> c == Rename(p.parts[0], p.finalName)
    ensures |p.parts| >= 2 <==> c.Concat?
    ensures c.Concat? ==> c.to == p.finalName && |c.manifest| == |p.parts|
    ensures c.Concat? ==> forall i :: 0 <= i < |p.parts| ==> c.manifest[i] == "file '" + p.parts[i] + "'\n"
  {
    if |p.parts| == 0 then NoParts
    else if |p.parts| == 1 then Rename(p.filename.value, p.finalName)
    else Concat(seq(|p.parts|, i requires 0 <= i < |p.parts| => "file '" + p.parts[i] + "'\n"), p.finalName)
  }

  /** The frames of the final output file a combine plan produces. */
  function OutputFrames<D>(p: Proxy<D>, c: Combine): seq<D>
    requires Valid(p)
  {
    match c
    case NoParts => []
    case Rename(_, _) => if |p.contents| > 0 then p.contents[0] else []
    case Concat(_, _) => Flatten(p.contents)
  }

  /**
   * The `ffmpeg()` context manager's exit: a StopAnimation raised by the
   * body is swallowed, any other error propagates, and in every case the
   * proxy is stopped and then its parts combined.
   */
  function FfmpegExit<D>(p: Proxy<D>, raised: Option<Error>): (r: (Result<()>, Proxy<D>, Combine))
    requires Valid(p)
    ensures !r.1.active && r.1.(active := p.active) == p
    ensures Valid(r.1) && r.2 == CombineParts(r.1)
    ensures r.0.Ok? <==> raised.None? || raised == Some(StopAnimation)
    ensures r.0.Err? ==> r.0.error == raised.value
  {
    var q := Stop(p);
    var outcome := if raised.None? || raised == Some(StopAnimation) then Ok(()) else Err(raised.value);
    (outcome, q, CombineParts(q))
  }

  /** Whatever the plan, the output file holds every frame of every part, in order. */
  lemma {:induction false} OutputIsAllParts<D>(p: Proxy<D>)
    requires Valid(p)
    ensures var c := CombineParts(p); OutputFrames(p, c) == Flatten(p.contents)
  {
    if |p.parts| == 1 {
      assert p.contents[..0] == [];
    }
  }

  /** No two parts share a file name, so the manifest lists no file twice. */
  lemma {:induction false} PartsDistinct<D>(p: Proxy<D>)
    requires Valid(p)
    ensures forall i, j :: 0 <= i < j < |p.parts| ==> p.parts[i] != p.parts[j]
  {
    forall i, j | 0 <= i < j < |p.parts|
      ensures p.parts[i] != p.parts[j]
    {
      PartNamesDistinct(p.base, p.ext, i, j);
    }
  }

  /**
   * End to end: writing `ds` through a fresh proxy and leaving the context
   * manager produces an output file holding exactly `ds`, and combines
   * only when at least one frame was written. Part names are pairwise
   * distinct, so the manifest lists no file twice.
   */
  lemma {:induction false} NoFrameLost<D>(filename: string, ds: seq<D>, raised: Option<Error>)
    ensures var r := FfmpegExit(WriteAll(NewProxy<D>(filename), ds), raised);
            && (|ds| == 0 <==> r.2 == NoParts)
            && OutputFrames(r.1, r.2) == ds
            && (forall i, j :: 0 <= i < j < |r.1.parts| ==> r.1.parts[i] != r.1.parts[j])
  {
    var p0 := NewProxy<D>(filename);
    var q := WriteAll(p0, ds);
    var s := Stop(q);
    assert s.contents == q.contents && s.parts == q.parts;
    WriteAllKeepsFrames(p0, ds);
    assert Flatten(p0.contents) == [];
    if |ds| > 0 {
      RotationCount(filename, ds);
    }
    OutputIsAllParts(s);
    PartsDistinct(s);
  }
}
