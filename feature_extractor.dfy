/**
 * The bookkeeping of the feature pipeline: which walked paths count as audio
 * files, how a decoded file becomes a mono buffer at the analysis rate, how the
 * buffer is cut into FFT blocks and mean-pooled, how the single-threaded loop
 * numbers and skips files, and the id -> path map written next to the features.
 *
 * Decoding (rodio), resampling (rubato) and the FFT and MFCC (aubio) are foreign
 * code: they are the function-valued fields of `Collaborators`. Their values are
 * unconstrained, but as functions they are total, so they never panic.
 */
module FeatureExtractor {
  import opened Common

  /** `NUM_DIMENSIONS`: the number of MFCC coefficients per feature. */
  const NUM_DIMENSIONS: nat := 13
  /** `fft_size` in `calculate_mfcc`: the block length. */
  const FFT_SIZE: nat := 2048
  /** The rate `extract_features` asks for and `calculate_mfcc` is told. */
  const ANALYSIS_RATE: nat := 22050

  // ---------------------------------------------------------------------------
  // get_audio_files: the extension filter
  // ---------------------------------------------------------------------------

  /** One item of the directory walk; `filter_map(|d| d.ok())` drops the errors. */
  datatype DirEntry = Entry(path: string) | WalkError

  /** `s` without trailing separators and trailing `.` components, which `Path` ignores. */
  function TrimEnd(s: string): (t: string)
    ensures |t| <= |s| && t == s[..|t|]
    ensures |s| > 0 ==> |t| > 0
    ensures |t| >= 2 ==> t[|t| - 1] != '/' && t[|t| - 2..] != "/."
    decreases |s|
  {
    if |s| >= 2 && (s[|s| - 1] == '/' || s[|s| - 2..] == "/.") then TrimEnd(s[..|s| - 1])
    else s
  }

  /** Only separators, and dots that follow a separator, are trimmed. */
  lemma {:induction false} TrimEndRemoves(s: string)
    ensures var t := TrimEnd(s);
      forall i :: |t| <= i < |s| ==> s[i] == '/' || (s[i] == '.' && i > 0 && s[i - 1] == '/')
    decreases |s|
  {
    if |s| >= 2 && (s[|s| - 1] == '/' || s[|s| - 2..] == "/.") {
      var p := s[..|s| - 1];
      TrimEndRemoves(p);
      var t := TrimEnd(p);
      assert s[|s| - 1] == '/' || (s[|s| - 1] == '.' && s[|s| - 2] == '/') by {
        if s[|s| - 1] != '/' {
          assert s[|s| - 2..][0] == s[|s| - 2] && s[|s| - 2..][1] == s[|s| - 1];
        }
      }
      forall i | |t| <= i < |s| - 1
        ensures s[i] == '/' || (s[i] == '.' && i > 0 && s[i - 1] == '/')
      {
        assert p[i] == s[i];
        if i > 0 {
          assert p[i - 1] == s[i - 1];
        }
      }
    }
  }

  /** The characters after the last `/`: all of them, up to that separator or the start. */
  function LastComponent(s: string): (c: string)
    ensures |c| <= |s| && c == s[|s| - |c|..] && '/' !in c
    ensures |c| < |s| ==> s[|s| - |c| - 1] == '/'
  {
    if |s| == 0 || s[|s| - 1] == '/' then ""
    else LastComponent(s[..|s| - 1]) + [s[|s| - 1]]
  }

  /** The last component is empty exactly when the path is empty or ends in a separator. */
  lemma LastComponentEmpty(t: string)
    ensures LastComponent(t) == "" <==> |t| == 0 || t[|t| - 1] == '/'
  {
    var c := LastComponent(t);
    if |c| > 0 {
      assert c[|c| - 1] == t[|t| - 1];
    }
  }

  /** A separator-free suffix that starts the path or follows a separator is the last component. */
  lemma LastComponentUnique(t: string, c: string)
    requires '/' !in c && |c| <= |t| && c == t[|t| - |c|..]
    requires |c| < |t| ==> t[|t| - |c| - 1] == '/'
    ensures LastComponent(t) == c
  {
  }

  /** The last component is `.` exactly when the path is `.` or ends in `/.`. */
  lemma LastComponentDot(t: string)
    ensures LastComponent(t) == "." <==> t == "." || (|t| >= 2 && t[|t| - 2..] == "/.")
  {
    if LastComponent(t) == "." {
      DotComponentEnds(t);
    } else if t == "." {
      LastComponentUnique(t, ".");
    } else if |t| >= 2 && t[|t| - 2..] == "/." {
      DotSuffix(t);
      LastComponentUnique(t, ".");
    }
  }

  lemma DotComponentEnds(t: string)
    requires LastComponent(t) == "."
    ensures t == "." || (|t| >= 2 && t[|t| - 2..] == "/.")
  {
    var c := LastComponent(t);
    assert |c| == 1 && t[|t| - 1..] == c;
    assert t[|t| - 1] == '.' by {
      assert t[|t| - 1..][0] == t[|t| - 1];
    }
    EndsInDot(t);
  }

  lemma EndsInDot(t: string)
    requires |t| >= 1 && t[|t| - 1] == '.'
    requires |t| >= 2 ==> t[|t| - 2] == '/'
    ensures t == "." || (|t| >= 2 && t[|t| - 2..] == "/.")
  {
    if |t| >= 2 {
      assert t[|t| - 2..] == [t[|t| - 2], t[|t| - 1]];
    } else {
      assert t == [t[0]];
    }
  }

  lemma DotSuffix(t: string)
    requires |t| >= 2 && t[|t| - 2..] == "/."
    ensures t[|t| - 2] == '/' && t[|t| - 1..] == "."
  {
    assert t[|t| - 2..][0] == t[|t| - 2] && t[|t| - 2..][1] == t[|t| - 1];
  }

  /** The last component is `..` exactly when the path is `..` or ends in `/..`. */
  lemma LastComponentDotDot(t: string)
    ensures LastComponent(t) == ".." <==> t == ".." || (|t| >= 3 && t[|t| - 3..] == "/..")
  {
    if LastComponent(t) == ".." {
      DotDotComponentEnds(t);
    } else if t == ".." {
      LastComponentUnique(t, "..");
    } else if |t| >= 3 && t[|t| - 3..] == "/.." {
      DotDotSuffix(t);
      LastComponentUnique(t, "..");
    }
  }

  lemma DotDotComponentEnds(t: string)
    requires LastComponent(t) == ".."
    ensures t == ".." || (|t| >= 3 && t[|t| - 3..] == "/..")
  {
    var c := LastComponent(t);
    assert |c| == 2 && t[|t| - 2..] == c;
    assert t[|t| - 2] == '.' && t[|t| - 1] == '.' by {
      assert t[|t| - 2..][0] == t[|t| - 2] && t[|t| - 2..][1] == t[|t| - 1];
    }
    EndsInDotDot(t);
  }

  lemma EndsInDotDot(t: string)
    requires |t| >= 2 && t[|t| - 2] == '.' && t[|t| - 1] == '.'
    requires |t| >= 3 ==> t[|t| - 3] == '/'
    ensures t == ".." || (|t| >= 3 && t[|t| - 3..] == "/..")
  {
    if |t| >= 3 {
      assert t[|t| - 3..] == [t[|t| - 3], t[|t| - 2], t[|t| - 1]];
    } else {
      assert t == [t[0], t[1]];
    }
  }

  lemma DotDotSuffix(t: string)
    requires |t| >= 3 && t[|t| - 3..] == "/.."
    ensures t[|t| - 3] == '/' && t[|t| - 2..] == ".."
  {
    assert t[|t| - 3..][0] == t[|t| - 3];
    assert t[|t| - 2..] == t[|t| - 3..][1..];
  }

  /** `Path::file_name` for `/`-separated paths: none for a root, `.` or `..`. */
  function FileName(path: string): Option<string>
  {
    var c := LastComponent(TrimEnd(path));
    if c == "" || c == "." || c == ".." then None else Some(c)
  }

  /**
   * After trimming, a path has no file name exactly when it is empty, ends in a
   * separator, or is or ends in a `.` or `..` component; otherwise the file name
   * is the whole last component.
   */
  lemma FileNameOf(path: string)
    ensures var t := TrimEnd(path);
      FileName(path).None? <==>
        |t| == 0 || t[|t| - 1] == '/' || t == "." || t == ".." || (|t| >= 3 && t[|t| - 3..] == "/..")
    ensures var t, r := TrimEnd(path), FileName(path);
      r.Some? ==> var c := r.value;
        && c != "" && '/' !in c && |c| <= |t| && c == t[|t| - |c|..]
        && (|c| < |t| ==> t[|t| - |c| - 1] == '/')
  {
    LastComponentEmpty(TrimEnd(path));
    LastComponentDot(TrimEnd(path));
    LastComponentDotDot(TrimEnd(path));
  }

  /** The index of the last `.` in `s`. */
  function LastDot(s: string): (r: Option<nat>)
    ensures r.None? <==> '.' !in s
    ensures r.Some? ==> r.value < |s| && s[r.value] == '.' && '.' !in s[r.value + 1..]
  {
    if |s| == 0 then None
    else if s[|s| - 1] == '.' then Some(|s| - 1)
    else
      var r := LastDot(s[..|s| - 1]);
      assert s == s[..|s| - 1] + [s[|s| - 1]];
      r
  }

  /** What follows the last dot of a file name, unless that dot starts the name. */
  function NameExtension(name: string): Option<string>
  {
    match LastDot(name)
    case None => None
    case Some(k) => if k == 0 then None else Some(name[k + 1..])
  }

  /** `Path::extension`. */
  function Extension(path: string): Option<string>
  {
    match FileName(path)
    case None => None
    case Some(name) => NameExtension(name)
  }

  /** The filter of `get_audio_files`: the extension is exactly `wav` or `mp3`. */
  predicate IsSupportedAudioFile(path: string) {
    Extension(path) == Some("wav") || Extension(path) == Some("mp3")
  }

  /** The walked paths that `keep` accepts, in walk order; walk errors are dropped. */
  function FilterWalk(walk: seq<DirEntry>, keep: string -> bool): (files: seq<string>)
    ensures |files| <= |walk|
    ensures forall i :: 0 <= i < |files| ==> keep(files[i]) && Entry(files[i]) in walk
  {
    if |walk| == 0 then []
    else
      var rest := FilterWalk(walk[1..], keep);
      assert forall i :: 0 <= i < |rest| ==> Entry(rest[i]) in walk by {
        forall i | 0 <= i < |rest| ensures Entry(rest[i]) in walk {
          var e := Entry(rest[i]);
          assert e in walk[1..];
        }
      }
      match walk[0]
      case WalkError => rest
      case Entry(p) => if keep(p) then [p] + rest else rest
  }

  /** Every walked path that `keep` accepts is listed. */
  lemma {:induction false} FilterWalkKeeps(walk: seq<DirEntry>, keep: string -> bool, p: string)
    requires Entry(p) in walk && keep(p)
    ensures p in FilterWalk(walk, keep)
  {
    var rest := FilterWalk(walk[1..], keep);
    if walk[0] == Entry(p) {
      assert FilterWalk(walk, keep) == [p] + rest;
    } else {
      assert Entry(p) in walk[1..];
      FilterWalkKeeps(walk[1..], keep, p);
      assert FilterWalk(walk, keep) == rest || FilterWalk(walk, keep) == [walk[0].path] + rest;
    }
  }

  /** `get_audio_files` after the walk: the walked paths that pass the filter, in walk order. */
  function GetAudioFiles(walk: seq<DirEntry>): (files: seq<string>)
  {
    FilterWalk(walk, IsSupportedAudioFile)
  }

  /** A path is listed exactly when the walk produced it and its extension is `wav` or `mp3`. */
  lemma GetAudioFilesExact(walk: seq<DirEntry>, p: string)
    ensures p in GetAudioFiles(walk) <==> Entry(p) in walk && IsSupportedAudioFile(p)
    ensures |GetAudioFiles(walk)| <= |walk|
  {
    if Entry(p) in walk && IsSupportedAudioFile(p) {
      FilterWalkKeeps(walk, IsSupportedAudioFile, p);
    }
  }


  /** `name` ends in a dot and `ext`, with at least one character before that dot. */
  predicate HasDotSuffix(name: string, ext: string) {
    |name| > |ext| + 1 && name[|name| - |ext| - 1..] == ['.'] + ext
  }

  /** A dot with no dot after it is the last one. */
  lemma LastDotAt(s: string, k: nat)
    requires k < |s| && s[k] == '.' && '.' !in s[k + 1..]
    ensures LastDot(s) == Some(k)
  {
    assert s[k] in s;
  }

  /** A name ending in a dot and a dot-free `ext` has extension `ext`. */
  lemma NameExtensionFromSuffix(name: string, ext: string)
    requires '.' !in ext && HasDotSuffix(name, ext)
    ensures NameExtension(name) == Some(ext)
  {
    var k := |name| - |ext| - 1;
    assert name[k..] == ['.'] + ext;
    assert name[k] == name[k..][0] == '.';
    assert name[k + 1..] == name[k..][1..] == ext;
    LastDotAt(name, k);
  }

  /** A name with extension `ext` ends in a dot and `ext`. */
  lemma SuffixFromNameExtension(name: string, ext: string)
    requires NameExtension(name) == Some(ext)
    ensures HasDotSuffix(name, ext)
  {
    var k := LastDot(name).value;
    assert name[k + 1..] == ext;
    assert name[k..] == [name[k]] + name[k + 1..];
  }

  /**
   * For an extension without a dot, `Extension` is an exact suffix test on the
   * file name, so the filter is case-sensitive and a name that is only `.wav`
   * has no extension.
   */
  lemma ExtensionIsDotSuffix(path: string, name: string, ext: string)
    requires FileName(path) == Some(name) && '.' !in ext
    ensures Extension(path) == Some(ext) <==> HasDotSuffix(name, ext)
  {
    if Extension(path) == Some(ext) {
      SuffixFromNameExtension(name, ext);
    }
    if HasDotSuffix(name, ext) {
      NameExtensionFromSuffix(name, ext);
    }
  }

  /** The filter keeps exactly the paths whose file name ends in `.wav` or `.mp3` after a non-empty stem. */
  lemma SupportedIffSuffix(path: string)
    ensures IsSupportedAudioFile(path) <==>
      FileName(path).Some? && (HasDotSuffix(FileName(path).value, "wav") || HasDotSuffix(FileName(path).value, "mp3"))
  {
    if FileName(path).Some? {
      ExtensionIsDotSuffix(path, FileName(path).value, "wav");
      ExtensionIsDotSuffix(path, FileName(path).value, "mp3");
    }
  }

  /** The comparison is case-sensitive: a file name ending in `.WAV` is not kept. */
  lemma UpperCaseExtensionRejected(path: string, stem: string)
    requires FileName(path) == Some(stem + ".WAV")
    ensures !IsSupportedAudioFile(path)
  {
    SupportedIffSuffix(path);
    var n := stem + ".WAV";
    assert n[|n| - 1] == 'V';
  }

  /** A file name without a dot, or whose only dot starts it, has no extension and is not kept. */
  lemma NoExtensionRejected(path: string, name: string)
    requires FileName(path) == Some(name)
    requires '.' !in name || (name[0] == '.' && '.' !in name[1..])
    ensures Extension(path) == None && !IsSupportedAudioFile(path)
  {
    if '.' in name {
      assert name == [name[0]] + name[1..];
      LastDotAt(name, 0);
    }
  }

  // ---------------------------------------------------------------------------
  // decode_and_resample_file: channel handling and the resample rule
  // ---------------------------------------------------------------------------

  /** What the decoder reports: channel count, native sample rate and the interleaved samples. */
  datatype Decoded = Decoded(channels: nat, sampleRate: nat, samples: seq<real>)

  /** The MFCC scratch buffer, which always holds `NUM_DIMENSIONS` coefficients. */
  type Coefficients = s: seq<real> | |s| == 13 witness seq(13, _ => 0.0)

  /** The foreign code the pipeline calls: unconstrained, total, never panicking. */
  datatype Collaborators = Collaborators(
    /** `File::open` and rodio's `Decoder::new`, `channels`, `sample_rate` and `convert_samples`. */
    decode: string -> Result<Decoded>,
    /** `resample_buffer(samples, source_sr, dest_sr)`: the rubato resampling loop. */
    resample: (seq<real>, nat, nat) -> seq<real>,
    /** The error of aubio `FFT::new(2048)`, if it fails. */
    fftNewError: Option<string>,
    /** The error of aubio `MFCC::new(2048, 40, 13, sample_rate)` for a sample rate, if it fails. */
    mfccNewError: nat -> Option<string>,
    /** aubio `FFT::do_` on a block's input slice; `None` when it fails. */
    fft: seq<real> -> Option<seq<real>>,
    /** aubio `MFCC::do_` on a spectrum, for the bank built at the given sample rate; `None` when it fails. */
    mfcc: (seq<real>, nat) -> Option<Coefficients>)

  /** `array_chunks::<2>().map(|frame| (frame[0] + frame[1]) * 0.5)`: an odd last sample is dropped. */
  function Downmix(s: seq<real>): seq<real>
    decreases |s|
  {
    if |s| < 2 then [] else [(s[0] + s[1]) * 0.5] + Downmix(s[2..])
  }

  /** Mono sample `i` averages the interleaved samples `2i` and `2i+1`. */
  lemma {:induction false} DownmixAt(s: seq<real>)
    ensures |Downmix(s)| == |s| / 2
    ensures forall i :: 0 <= i < |s| / 2 ==> Downmix(s)[i] == (s[2 * i] + s[2 * i + 1]) * 0.5
    decreases |s|
  {
    if |s| >= 2 {
      DownmixAt(s[2..]);
      var d := Downmix(s);
      forall i | 1 <= i < |s| / 2 ensures d[i] == (s[2 * i] + s[2 * i + 1]) * 0.5 {
        assert d[i] == Downmix(s[2..])[i - 1];
        assert s[2..][2 * (i - 1)] == s[2 * i];
        assert s[2..][2 * (i - 1) + 1] == s[2 * i + 1];
      }
    }
  }

  /** `decode_and_resample_file`. */
  function DecodeAndResampleFile(path: string, outputSampleRate: nat, env: Collaborators): Result<seq<real>>
  {
    match env.decode(path)
    case Err(e) => Err(e)
    case Ok(d) =>
      if d.channels != 1 && d.channels != 2 then Err("Unsupported channel count")
      else
        var mono := if d.channels == 1 then d.samples else Downmix(d.samples);
        if d.sampleRate != outputSampleRate then Ok(env.resample(mono, d.sampleRate, outputSampleRate))
        else Ok(mono)
  }

  /**
   * One channel passes through, two are averaged pairwise, any other count is an
   * error; the resampler is used exactly when the decoded rate differs from the
   * requested one.
   */
  lemma DecodeAndResampleCases(path: string, outputSampleRate: nat, env: Collaborators)
    requires env.decode(path).Ok?
    ensures var d := env.decode(path).value;
      var r := DecodeAndResampleFile(path, outputSampleRate, env);
      && (r == Err("Unsupported channel count") <==> d.channels != 1 && d.channels != 2)
      && (d.channels == 1 && d.sampleRate == outputSampleRate ==> r == Ok(d.samples))
      && (d.channels == 2 && d.sampleRate == outputSampleRate ==>
            r.Ok? && |r.value| == |d.samples| / 2 &&
            forall i :: 0 <= i < |r.value| ==> r.value[i] == (d.samples[2 * i] + d.samples[2 * i + 1]) * 0.5)
      && ((d.channels == 1 || d.channels == 2) && d.sampleRate != outputSampleRate ==>
            r == Ok(env.resample(if d.channels == 1 then d.samples else Downmix(d.samples),
                                 d.sampleRate, outputSampleRate)))
  {
    DownmixAt(env.decode(path).value.samples);
  }

  // ---------------------------------------------------------------------------
  // calculate_mfcc: block count, padding, block loop, mean pooling
  // ---------------------------------------------------------------------------

  function Pow2(k: nat): (r: nat)
    ensures r >= 1
  {
    if k == 0 then 1 else 2 * Pow2(k - 1)
  }

  lemma {:induction false} Pow2Add(a: nat, b: nat)
    ensures Pow2(a + b) == Pow2(a) * Pow2(b)
  {
    if a > 0 {
      Pow2Add(a - 1, b);
    }
  }

  lemma {:induction false} Pow2Monotonic(a: nat, b: nat)
    requires a <= b
    ensures Pow2(a) <= Pow2(b)
    decreases b
  {
    if a < b {
      Pow2Monotonic(a, b - 1);
    }
  }

  lemma Pow2Values()
    ensures Pow2(1) == 2 && Pow2(11) == 2048 && Pow2(23) == 8388608
    ensures Pow2(24) == 16777216 && Pow2(25) == 33554432
  {
    Pow2Add(11, 12);
    Pow2Add(1, 23);
    Pow2Add(1, 24);
  }

  /** The number of binary digits of `n`. */
  function BitLength(n: nat): (b: nat)
    ensures n < Pow2(b)
    ensures n > 0 ==> b >= 1 && Pow2(b - 1) <= n
  {
    if n == 0 then 0 else 1 + BitLength(n / 2)
  }

  lemma MultipleDiv(q: nat, m: nat)
    requires m > 0
    ensures (q * m) / m == q && (q * m) % m == 0
  {
    var d, rem := (q * m) / m, (q * m) % m;
    assert (q - d) * m == rem;
    if q > d {
      MulMonotonic(1, q - d, m);
    } else if q < d {
      assert (d - q) * m == -rem;
      MulMonotonic(1, d - q, m);
    }
  }

  /** The multiples of `m` just below and just above `n`, and their quotients. */
  lemma RoundNeighbours(n: nat, m: nat)
    requires m >= 2
    ensures (n / m) * m + n % m == n && 0 <= n % m < m
    ensures (n / m + 1) * m == (n / m) * m + m
    ensures ((n / m) * m) / m == n / m && ((n / m + 1) * m) / m == n / m + 1
  {
    MultipleDiv(n / m, m);
    MultipleDiv(n / m + 1, m);
  }

  /** `n` rounded to the nearest multiple of `m`, halfway cases to the even multiple. */
  function RoundToMultiple(n: nat, m: nat): (r: nat)
    requires m >= 2
    ensures r == (n / m) * m || r == (n / m + 1) * m
    ensures 2 * (if r >= n then r - n else n - r) <= m
    ensures 2 * (n % m) == m ==> (r / m) % 2 == 0
  {
    RoundNeighbours(n, m);
    var q, rem := n / m, n % m;
    if 2 * rem < m then q * m
    else if 2 * rem > m then (q + 1) * m
    else if q % 2 == 0 then q * m
    else (q + 1) * m
  }

  /** `n as f32`: an f32 carries 24 significant bits and rounds to nearest, ties to even. */
  function IntToF32(n: nat): nat
  {
    var b := BitLength(n);
    if b <= 24 then n else RoundToMultiple(n, Pow2(b - 24))
  }

  /** `(buffer.len() as f32 / fft_size as f32).floor() as usize`; dividing by 2048 is exact in f32. */
  function NumBlocks(len: nat): nat
  {
    IntToF32(len) / FFT_SIZE
  }

  /**
   * `n as f32` is an f32 value nearest to `n`: with `b` binary digits and `b > 24`,
   * a multiple of the spacing 2^(b-24) that is at most 2^24 spacings, within half
   * a spacing of `n`, and an even number of spacings in a halfway case.
   */
  lemma IntToF32Nearest(n: nat)
    ensures BitLength(n) <= 24 ==> IntToF32(n) == n
    ensures BitLength(n) > 24 ==>
      var ulp, r := Pow2(BitLength(n) - 24), IntToF32(n);
      && r % ulp == 0 && r / ulp <= Pow2(24)
      && 2 * (if r >= n then r - n else n - r) <= ulp
      && (2 * (n % ulp) == ulp ==> (r / ulp) % 2 == 0)
  {
    var b := BitLength(n);
    if b > 24 {
      var ulp := Pow2(b - 24);
      assert ulp >= 2 by { Pow2Monotonic(1, b - 24); assert Pow2(1) == 2 * Pow2(0); }
      assert Pow2(b) == Pow2(24) * ulp by { Pow2Add(24, b - 24); }
      RoundToMultipleSteps(n, ulp, Pow2(24));
    }
  }

  /** Below `k` multiples of `m`, rounding gives a multiple of `m` that is at most `k` of them. */
  lemma RoundToMultipleSteps(n: nat, m: nat, k: nat)
    requires m >= 2 && n < k * m
    ensures RoundToMultiple(n, m) % m == 0 && RoundToMultiple(n, m) / m <= k
  {
    var q, r := n / m, RoundToMultiple(n, m);
    assert q * m <= n;
    assert q < k by {
      if q >= k {
        MulMonotonic(k, q, m);
      }
    }
    if r == q * m {
      MultipleDiv(q, m);
    } else {
      MultipleDiv(q + 1, m);
    }
  }

  /** Below 2^24 the conversion to f32 is exact. */
  lemma IntToF32Exact(n: nat)
    requires n < 16777216
    ensures IntToF32(n) == n
  {
    Pow2Values();
    var b := BitLength(n);
    if b > 24 {
      Pow2Monotonic(24, b - 1);
    }
  }

  lemma MulMonotonic(a: nat, b: nat, m: nat)
    requires a <= b
    ensures a * m <= b * m
  {
  }

  lemma {:induction false} DivAtLeast(n: nat, m: nat, c: nat)
    requires m > 0 && c * m <= n
    ensures c <= n / m
  {
    if n / m < c {
      MulMonotonic(n / m + 1, c, m);
    }
  }

  /** From 2^24 on the conversion keeps the value at least 2^24. */
  lemma IntToF32Large(n: nat)
    requires n >= 16777216
    ensures IntToF32(n) >= 16777216
  {
    Pow2Values();
    var b := BitLength(n);
    if b <= 24 {
      Pow2Monotonic(b, 24);
    } else {
      var m := Pow2(b - 24);
      assert m >= 2 by { Pow2Monotonic(1, b - 24); }
      assert Pow2(b - 1) == 8388608 * m by { Pow2Add(23, b - 24); }
      DivAtLeast(n, m, 8388608);
      MulMonotonic(8388608, n / m, m);
      MulMonotonic(2, m, 8388608);
    }
  }

  /** For buffers under 2^24 samples the block count is the number of whole blocks. */
  lemma NumBlocksExact(len: nat)
    requires len < 16777216
    ensures NumBlocks(len) == len / FFT_SIZE
  {
    IntToF32Exact(len);
  }

  /** Padding happens exactly for buffers shorter than one block. */
  lemma NumBlocksZeroIff(len: nat)
    ensures NumBlocks(len) == 0 <==> len < FFT_SIZE
  {
    if len < 16777216 {
      NumBlocksExact(len);
    } else {
      IntToF32Large(len);
    }
  }

  /** Under 2^24 samples every processed block lies inside the buffer, and what follows the last is shorter than a block. */
  lemma BlocksInBounds(len: nat)
    requires len < 16777216
    ensures forall i :: 0 <= i < NumBlocks(len) ==> i * FFT_SIZE + FFT_SIZE <= len
    ensures len - NumBlocks(len) * FFT_SIZE < FFT_SIZE
  {
    NumBlocksExact(len);
    var n := len / FFT_SIZE;
    forall i | 0 <= i < n ensures i * FFT_SIZE + FFT_SIZE <= len {
      assert i * FFT_SIZE + FFT_SIZE == (i + 1) * FFT_SIZE <= n * FFT_SIZE;
    }
  }

  /**
   * From 2^24 samples on the count can be one too many: 2^25 - 1 samples round to
   * 2^25 as an f32, so 16384 blocks are run where 16383 fit, and the last block's
   * slice holds only 2047 samples.
   */
  lemma LongBufferBlockCountRoundsUp()
    ensures NumBlocks(33554431) == 16384
    ensures 33554431 / FFT_SIZE == 16383
    ensures 33554431 - 16383 * FFT_SIZE == 2047
  {
    Pow2Values();
    var b := BitLength(33554431);
    if b < 25 {
      Pow2Monotonic(b, 24);
    } else if b > 25 {
      Pow2Monotonic(25, b - 1);
    }
    assert b == 25;
    assert RoundToMultiple(33554431, 2) == 33554432;
  }

  /** `Vec::resize(new_len, value)`. */
  function Resized(s: seq<real>, newLen: nat, value: real): (r: seq<real>)
    ensures |r| == newLen
    ensures forall i :: 0 <= i < newLen ==> r[i] == if i < |s| then s[i] else value
  {
    if newLen <= |s| then s[..newLen] else s + seq(newLen - |s|, _ => value)
  }

  /** The buffer after `if num_blocks == 0 { buffer.resize(fft_size, 0.0) }`. */
  function Padded(samples: seq<real>): seq<real>
  {
    if NumBlocks(|samples|) == 0 then Resized(samples, FFT_SIZE, 0.0) else samples
  }

  /** A buffer shorter than a block is zero-extended to exactly one block; a longer one is untouched. */
  lemma PaddedShape(samples: seq<real>)
    ensures |samples| < FFT_SIZE ==>
      && |Padded(samples)| == FFT_SIZE
      && Padded(samples)[..|samples|] == samples
      && forall i :: |samples| <= i < FFT_SIZE ==> Padded(samples)[i] == 0.0
    ensures |samples| >= FFT_SIZE ==> Padded(samples) == samples
  {
    NumBlocksZeroIff(|samples|);
  }

  /** An f32 as far as the model follows it: a real, or the NaN that 0.0 / 0.0 gives. */
  datatype F32 = Num(value: real) | NaN

  function AddCoefficients(sums: seq<real>, c: Coefficients): (r: seq<real>)
    requires |sums| == NUM_DIMENSIONS
    ensures |r| == NUM_DIMENSIONS
  {
    seq(NUM_DIMENSIONS, k requires 0 <= k < NUM_DIMENSIONS => sums[k] + c[k])
  }

  /** The block loop from `blockIndex` on, with the running sums `sums`. */
  function BlockSums(buffer: seq<real>, blockIndex: nat, numBlocks: nat, sums: seq<real>,
                     sampleRate: nat, env: Collaborators): (r: Outcome<seq<real>>)
    requires |sums| == NUM_DIMENSIONS
    ensures r.Returned? && r.result.Ok? ==> |r.result.value| == NUM_DIMENSIONS
    decreases numBlocks - blockIndex
  {
    if blockIndex >= numBlocks then Returned(Ok(sums))
    else
      var start := blockIndex * FFT_SIZE;
      if start > |buffer| then Panicked("range start index out of range for slice")
      else
        match env.fft(buffer[start..])
        case None => Returned(Err("FFT failed"))
        case Some(spectrum) =>
          match env.mfcc(spectrum, sampleRate)
          case None => Returned(Err("MFCC failed"))
          case Some(c) => BlockSums(buffer, blockIndex + 1, numBlocks, AddCoefficients(sums, c), sampleRate, env)
  }

  /** `*e /= num_blocks as f32`: with no block every sum is 0.0, and 0.0 / 0.0 is NaN. */
  function MeanOf(sum: real, numBlocks: nat): F32
  {
    if numBlocks == 0 then NaN else Num(sum / numBlocks as real)
  }

  /** What `calculate_mfcc` returns for a buffer that held `samples` on entry. */
  function CalculateMfccSpec(samples: seq<real>, sampleRate: nat, env: Collaborators): Outcome<seq<F32>>
  {
    var numBlocks := NumBlocks(|samples|);
    if env.fftNewError.Some? then Returned(Err(env.fftNewError.value))
    else if env.mfccNewError(sampleRate).Some? then Returned(Err(env.mfccNewError(sampleRate).value))
    else
      match BlockSums(Padded(samples), 0, numBlocks, seq(NUM_DIMENSIONS, _ => 0.0), sampleRate, env)
      case Panicked(m) => Panicked(m)
      case Returned(Err(e)) => Returned(Err(e))
      case Returned(Ok(sums)) =>
        Returned(Ok(seq(NUM_DIMENSIONS, k requires 0 <= k < NUM_DIMENSIONS => MeanOf(sums[k], numBlocks))))
  }

  /** A successful run yields exactly `NUM_DIMENSIONS` coefficients. */
  lemma CalculateMfccLength(samples: seq<real>, sampleRate: nat, env: Collaborators)
    ensures var o := CalculateMfccSpec(samples, sampleRate, env);
      o.Returned? && o.result.Ok? ==> |o.result.value| == NUM_DIMENSIONS
  {
  }

  /**
   * A buffer shorter than one block runs the block loop zero times: once the FFT
   * and the MFCC are built, the padding is never read, nothing can fail, and every
   * coefficient is NaN.
   */
  lemma ShortBufferYieldsNaN(samples: seq<real>, sampleRate: nat, env: Collaborators)
    requires |samples| < FFT_SIZE
    requires env.fftNewError.None? && env.mfccNewError(sampleRate).None?
    ensures CalculateMfccSpec(samples, sampleRate, env) == Returned(Ok(seq(NUM_DIMENSIONS, _ => NaN)))
  {
    NumBlocksZeroIff(|samples|);
    var zeros := seq(NUM_DIMENSIONS, _ => 0.0);
    assert BlockSums(Padded(samples), 0, 0, zeros, sampleRate, env) == Returned(Ok(zeros));
    assert seq(NUM_DIMENSIONS, k requires 0 <= k < NUM_DIMENSIONS => MeanOf(zeros[k], 0)) == seq(NUM_DIMENSIONS, _ => NaN);
  }

  /**
   * Under 2^24 samples the call never panics, and it fails exactly when the FFT or
   * the MFCC of one of its `len / 2048` whole blocks fails.
   */
  lemma {:induction false} BlockSumsFailsIff(buffer: seq<real>, blockIndex: nat, numBlocks: nat, sums: seq<real>,
                                             sampleRate: nat, env: Collaborators)
    requires |sums| == NUM_DIMENSIONS
    requires numBlocks * FFT_SIZE <= |buffer|
    ensures var r := BlockSums(buffer, blockIndex, numBlocks, sums, sampleRate, env);
      && r.Returned?
      && (r.result.Err? <==> exists i :: blockIndex <= i < numBlocks && !BlockSucceeds(buffer, i, sampleRate, env))
    decreases numBlocks - blockIndex
  {
    if blockIndex < numBlocks {
      assert blockIndex * FFT_SIZE <= |buffer| by {
        assert blockIndex * FFT_SIZE <= numBlocks * FFT_SIZE;
      }
      if BlockSucceeds(buffer, blockIndex, sampleRate, env) {
        var c := env.mfcc(env.fft(buffer[blockIndex * FFT_SIZE..]).value, sampleRate).value;
        BlockSumsFailsIff(buffer, blockIndex + 1, numBlocks, AddCoefficients(sums, c), sampleRate, env);
      }
    }
  }

  /** Block `i` starts inside the buffer and its FFT and MFCC both succeed. */
  predicate BlockSucceeds(buffer: seq<real>, i: nat, sampleRate: nat, env: Collaborators)
  {
    && i * FFT_SIZE <= |buffer|
    && var spectrum := env.fft(buffer[i * FFT_SIZE..]);
    spectrum.Some? && env.mfcc(spectrum.value, sampleRate).Some?
  }

  /**
   * Under 2^24 samples `calculate_mfcc` never panics, and it fails exactly when
   * building the FFT or the MFCC fails or one of its blocks fails.
   */
  lemma CalculateMfccFailsIff(samples: seq<real>, sampleRate: nat, env: Collaborators)
    requires |samples| < 16777216
    ensures var o := CalculateMfccSpec(samples, sampleRate, env);
      && o.Returned?
      && (o.result.Err? <==>
            || env.fftNewError.Some?
            || env.mfccNewError(sampleRate).Some?
            || exists i :: 0 <= i < NumBlocks(|samples|) && !BlockSucceeds(Padded(samples), i, sampleRate, env))
  {
    var numBlocks := NumBlocks(|samples|);
    PaddedShape(samples);
    NumBlocksZeroIff(|samples|);
    if numBlocks > 0 {
      BlocksInBounds(|samples|);
      assert numBlocks * FFT_SIZE <= |samples| by {
        assert (numBlocks - 1) * FFT_SIZE + FFT_SIZE <= |samples|;
      }
    }
    BlockSumsFailsIff(Padded(samples), 0, numBlocks, seq(NUM_DIMENSIONS, _ => 0.0), sampleRate, env);
  }

  /** A `Vec<f32>` that `calculate_mfcc` resizes in place. */
  class SampleBuffer {
    var samples: seq<real>

    constructor (s: seq<real>)
      ensures samples == s
    {
      samples := s;
    }

    /** `Vec::resize`. */
    method Resize(newLen: nat, value: real)
      modifies this
      ensures samples == Resized(old(samples), newLen, value)
    {
      if newLen <= |samples| {
        samples := samples[..newLen];
      } else {
        samples := samples + seq(newLen - |samples|, _ => value);
      }
    }
  }

  /** `for (new, mean) in mfcc_scratch.iter().zip(mean_mfcc.iter_mut()) { *mean += new }`. */
  method AddInto(sums: array<real>, c: Coefficients)
    requires sums.Length == NUM_DIMENSIONS
    modifies sums
    ensures sums[..] == AddCoefficients(old(sums[..]), c)
  {
    for k := 0 to NUM_DIMENSIONS
      invariant forall j :: 0 <= j < k ==> sums[j] == old(sums[j]) + c[j]
      invariant forall j :: k <= j < NUM_DIMENSIONS ==> sums[j] == old(sums[j])
    {
      sums[k] := sums[k] + c[k];
    }
  }

  /** `for e in &mut mean_mfcc { *e /= num_blocks as f32 }`, read out as the returned vector. */
  method DivideBy(sums: array<real>, numBlocks: nat) returns (means: seq<F32>)
    ensures |means| == sums.Length
    ensures forall k :: 0 <= k < sums.Length ==> means[k] == MeanOf(sums[k], numBlocks)
  {
    means := [];
    for k := 0 to sums.Length
      invariant |means| == k
      invariant forall j :: 0 <= j < k ==> means[j] == MeanOf(sums[j], numBlocks)
    {
      means := means + [MeanOf(sums[k], numBlocks)];
    }
  }

  /** `calculate_mfcc(buffer, sample_rate)`. */
  method CalculateMfcc(buffer: SampleBuffer, sampleRate: nat, env: Collaborators) returns (o: Outcome<seq<F32>>)
    modifies buffer
    ensures buffer.samples == Padded(old(buffer.samples))
    ensures o == CalculateMfccSpec(old(buffer.samples), sampleRate, env)
  {
    ghost var original := buffer.samples;
    var numBlocks := NumBlocks(|buffer.samples|);
    if numBlocks == 0 {
      buffer.Resize(FFT_SIZE, 0.0);
    }
    ghost var padded := buffer.samples;
    assert padded == Padded(original);
    if env.fftNewError.Some? {
      return Returned(Err(env.fftNewError.value));
    }
    if env.mfccNewError(sampleRate).Some? {
      return Returned(Err(env.mfccNewError(sampleRate).value));
    }
    ghost var zeros := seq(NUM_DIMENSIONS, _ => 0.0);
    ghost var total := BlockSums(padded, 0, numBlocks, zeros, sampleRate, env);
    var meanMfcc := new real[NUM_DIMENSIONS](_ => 0.0);
    assert meanMfcc[..] == zeros;
    for blockIndex := 0 to numBlocks
      invariant buffer.samples == padded
      invariant total == BlockSums(padded, blockIndex, numBlocks, meanMfcc[..], sampleRate, env)
    {
      var start := blockIndex * FFT_SIZE;
      if start > |buffer.samples| {
        o := Panicked("range start index out of range for slice");
        assert total == Panicked("range start index out of range for slice");
        return;
      }
      var spectrum := env.fft(buffer.samples[start..]);
      if spectrum.None? {
        o := Returned(Err("FFT failed"));
        assert total == Returned(Err("FFT failed"));
        return;
      }
      var coefficients := env.mfcc(spectrum.value, sampleRate);
      if coefficients.None? {
        o := Returned(Err("MFCC failed"));
        assert total == Returned(Err("MFCC failed"));
        return;
      }
      AddInto(meanMfcc, coefficients.value);
    }
    ghost var sums := meanMfcc[..];
    assert total == Returned(Ok(sums));
    var means := DivideBy(meanMfcc, numBlocks);
    assert means == seq(NUM_DIMENSIONS, k requires 0 <= k < NUM_DIMENSIONS => MeanOf(sums[k], numBlocks));
    o := Returned(Ok(means));
  }


  // ---------------------------------------------------------------------------
  // decode_and_calculate_mfcc and the single-threaded extract_features loop
  // ---------------------------------------------------------------------------

  /** `decode_and_calculate_mfcc`: `.unwrap()` turns a decode error into a panic. */
  function FileMfcc(path: string, outputSampleRate: nat, env: Collaborators): Outcome<seq<F32>>
  {
    match DecodeAndResampleFile(path, outputSampleRate, env)
    case Err(e) => Panicked(e)
    case Ok(samples) => CalculateMfccSpec(samples, ANALYSIS_RATE, env)
  }

  method DecodeAndCalculateMfcc(path: string, outputSampleRate: nat, env: Collaborators) returns (o: Outcome<seq<F32>>)
    ensures o == FileMfcc(path, outputSampleRate, env)
  {
    var decoded := DecodeAndResampleFile(path, outputSampleRate, env);
    if decoded.Err? {
      return Panicked(decoded.msg);
    }
    var buffer := new SampleBuffer(decoded.value);
    o := CalculateMfcc(buffer, ANALYSIS_RATE, env);
  }

  /**
   * A file that fails to decode, or whose channel count is neither 1 nor 2 (0
   * included), aborts the run with that error instead of being skipped.
   */
  lemma DecodeErrorPanics(path: string, outputSampleRate: nat, env: Collaborators)
    requires env.decode(path).Ok? ==> env.decode(path).value.channels != 1 && env.decode(path).value.channels != 2
    ensures env.decode(path).Err? ==> FileMfcc(path, outputSampleRate, env) == Panicked(env.decode(path).msg)
    ensures env.decode(path).Ok? ==> FileMfcc(path, outputSampleRate, env) == Panicked("Unsupported channel count")
  {
  }

  /** The per-file step of the loop: `decode_and_calculate_mfcc(path, 22050)`. */
  function FileRun(env: Collaborators): string -> Outcome<seq<F32>>
  {
    path => FileMfcc(path, ANALYSIS_RATE, env)
  }

  /** `Feature { feature_vector, source_file, id }`. */
  datatype Feature = Feature(featureVector: seq<F32>, sourceFile: string, id: U32)

  /** The loop over `files[..n]` with per-file step `run`: the features pushed so far, or the panic that ended it. */
  function Kept(files: seq<string>, n: nat, run: string -> Outcome<seq<F32>>): (o: Outcome<seq<Feature>>)
    requires n <= |files|
    ensures o.Returned? ==> o.result.Ok? && |o.result.value| <= n
  {
    if n == 0 then Returned(Ok([]))
    else
      match Kept(files, n - 1, run)
      case Panicked(m) => Panicked(m)
      case Returned(previous) =>
        match run(files[n - 1])
        case Panicked(m) => Panicked(m)
        case Returned(Err(_)) => Returned(previous)
        case Returned(Ok(mfcc)) => Returned(Ok(previous.value + [Feature(mfcc, files[n - 1], AsU32(n - 1))]))
  }

  /** What `extract_features(RunMode::SingleThreaded, asset_dir)` does with the walk of `asset_dir`. */
  function ExtractFeaturesSpec(walk: seq<DirEntry>, assetDir: string, env: Collaborators): Outcome<seq<Feature>>
  {
    var files := GetAudioFiles(walk);
    if |files| == 0 then Returned(Err("No files found in " + assetDir))
    else Kept(files, |files|, FileRun(env))
  }

  method ExtractFeatures(walk: seq<DirEntry>, assetDir: string, env: Collaborators) returns (o: Outcome<seq<Feature>>)
    ensures o == ExtractFeaturesSpec(walk, assetDir, env)
  {
    var files := GetAudioFiles(walk);
    if |files| == 0 {
      return Returned(Err("No files found in " + assetDir));
    }
    o := ExtractEach(files, env);
  }

  /** The `RunMode::SingleThreaded` loop: push each file's feature, skip a file whose MFCC fails. */
  method ExtractEach(files: seq<string>, env: Collaborators) returns (o: Outcome<seq<Feature>>)
    ensures o == Kept(files, |files|, FileRun(env))
  {
    var features: seq<Feature> := [];
    for i := 0 to |files|
      invariant Kept(files, i, FileRun(env)) == Returned(Ok(features))
    {
      var mfcc := DecodeAndCalculateMfcc(files[i], ANALYSIS_RATE, env);
      assert mfcc == FileRun(env)(files[i]);
      KeptStep(files, i, FileRun(env), features);
      if mfcc.Panicked? {
        KeptPanicPersists(files, i + 1, |files|, FileRun(env));
        return Panicked(mfcc.msg);
      }
      if mfcc.result.Ok? {
        features := features + [Feature(mfcc.result.value, files[i], AsU32(i))];
      }
    }
    o := Returned(Ok(features));
  }

  /** One more turn of the loop. */
  lemma KeptStep(files: seq<string>, i: nat, run: string -> Outcome<seq<F32>>, features: seq<Feature>)
    requires i < |files| && Kept(files, i, run) == Returned(Ok(features))
    ensures var m := run(files[i]);
      && (m.Panicked? ==> Kept(files, i + 1, run) == Panicked(m.msg))
      && (m.Returned? && m.result.Err? ==> Kept(files, i + 1, run) == Returned(Ok(features)))
      && (m.Returned? && m.result.Ok? ==>
            Kept(files, i + 1, run) == Returned(Ok(features + [Feature(m.result.value, files[i], AsU32(i))])))
  {
  }

  /** Once the loop has panicked, later files change nothing. */
  lemma {:induction false} KeptPanicPersists(files: seq<string>, i: nat, n: nat, run: string -> Outcome<seq<F32>>)
    requires i <= n <= |files| && Kept(files, i, run).Panicked?
    ensures Kept(files, n, run) == Kept(files, i, run)
    decreases n
  {
    if i < n {
      KeptPanicPersists(files, i, n - 1, run);
    }
  }

  /** The step yields a coefficient vector for file `k`. */
  predicate Extracts(files: seq<string>, k: nat, run: string -> Outcome<seq<F32>>)
    requires k < |files|
  {
    run(files[k]).Returned? && run(files[k]).result.Ok?
  }

  /** The positions below `n` whose file yields an MFCC, in increasing order. */
  function Selected(files: seq<string>, n: nat, run: string -> Outcome<seq<F32>>): (ix: seq<nat>)
    requires n <= |files|
    ensures |ix| <= n
  {
    if n == 0 then []
    else Selected(files, n - 1, run) + (if Extracts(files, n - 1, run) then [n - 1] else [])
  }

  /** The selected positions increase, and a position is selected exactly when its file yields an MFCC. */
  lemma {:induction false} SelectedShape(files: seq<string>, n: nat, run: string -> Outcome<seq<F32>>)
    requires n <= |files|
    ensures var ix := Selected(files, n, run);
      && (forall j :: 0 <= j < |ix| ==> ix[j] < n)
      && (forall j, k :: 0 <= j < k < |ix| ==> ix[j] < ix[k])
      && (forall k :: 0 <= k < n ==> (k in ix <==> Extracts(files, k, run)))
  {
    if n > 0 {
      SelectedShape(files, n - 1, run);
    }
  }

  /**
   * A run that does not panic keeps, in file-list order, one feature per selected
   * file, tagged with that file's path and its position in the list and holding
   * that file's coefficients.
   */
  lemma {:induction false} KeptShape(files: seq<string>, n: nat, run: string -> Outcome<seq<F32>>)
    requires n <= |files| && Kept(files, n, run).Returned?
    ensures var fs := Kept(files, n, run).result.value;
      var ix := Selected(files, n, run);
      && |fs| == |ix|
      && (forall j :: 0 <= j < |ix| ==>
            && ix[j] < |files|
            && fs[j].sourceFile == files[ix[j]]
            && fs[j].id == AsU32(ix[j])
            && run(files[ix[j]]) == Returned(Ok(fs[j].featureVector)))
  {
    if n > 0 {
      KeptShape(files, n - 1, run);
      var fs := Kept(files, n - 1, run).result.value;
      var ix := Selected(files, n - 1, run);
      if Extracts(files, n - 1, run) {
        var m := run(files[n - 1]).result.value;
        assert Kept(files, n, run).result.value == fs + [Feature(m, files[n - 1], AsU32(n - 1))];
        assert Selected(files, n, run) == ix + [n - 1];
      } else {
        assert Kept(files, n, run).result.value == fs;
        assert Selected(files, n, run) == ix;
      }
    }
  }

  /** A run panics exactly when some file's step panics. */
  lemma {:induction false} KeptPanicsIff(files: seq<string>, n: nat, run: string -> Outcome<seq<F32>>)
    requires n <= |files|
    ensures Kept(files, n, run).Panicked? <==> exists k :: 0 <= k < n && run(files[k]).Panicked?
  {
    if n > 0 {
      KeptPanicsIff(files, n - 1, run);
    }
  }

  /**
   * The run fails only when the walk found no audio file; otherwise it either
   * returns the kept features or panics, and it panics exactly when some listed
   * file's pipeline panics: a decode error, an unsupported channel count or a
   * block slice past the buffer (the foreign calls never panic in this model).
   */
  lemma ExtractFeaturesOutcomes(walk: seq<DirEntry>, assetDir: string, env: Collaborators)
    ensures var o := ExtractFeaturesSpec(walk, assetDir, env);
      var files := GetAudioFiles(walk);
      && (o == Returned(Err("No files found in " + assetDir)) <==> files == [])
      && (o.Returned? && o.result.Ok? ==> |o.result.value| <= |files|)
      && (o.Panicked? <==> exists k :: 0 <= k < |files| && FileMfcc(files[k], ANALYSIS_RATE, env).Panicked?)
  {
    var files := GetAudioFiles(walk);
    KeptPanicsIff(files, |files|, FileRun(env));
  }

  /** With fewer than 2^32 files, ids strictly increase along a run that does not panic. */
  lemma KeptIdsIncrease(files: seq<string>, run: string -> Outcome<seq<F32>>)
    requires |files| <= 0x1_0000_0000 && Kept(files, |files|, run).Returned?
    ensures var fs := Kept(files, |files|, run).result.value;
      forall j, k :: 0 <= j < k < |fs| ==> fs[j].id < fs[k].id
  {
    KeptShape(files, |files|, run);
    SelectedShape(files, |files|, run);
  }

  /** A file whose pipeline succeeds yields `NUM_DIMENSIONS` coefficients. */
  lemma FileMfccLength(path: string, env: Collaborators)
    requires FileMfcc(path, ANALYSIS_RATE, env).Returned? && FileMfcc(path, ANALYSIS_RATE, env).result.Ok?
    ensures |FileMfcc(path, ANALYSIS_RATE, env).result.value| == NUM_DIMENSIONS
  {
    CalculateMfccLength(DecodeAndResampleFile(path, ANALYSIS_RATE, env).value, ANALYSIS_RATE, env);
  }

  /**
   * A successful run holds one feature per listed file whose MFCC step succeeds, in
   * list order: its source is that file, its vector has `NUM_DIMENSIONS` entries,
   * and, with fewer than 2^32 files, ids strictly increase.
   */
  lemma ExtractedFeatures(walk: seq<DirEntry>, assetDir: string, env: Collaborators)
    ensures var o := ExtractFeaturesSpec(walk, assetDir, env);
      o.Returned? && o.result.Ok? ==>
      var files := GetAudioFiles(walk);
      var fs := o.result.value;
      && |fs| == |Selected(files, |files|, FileRun(env))|
      && (forall j :: 0 <= j < |fs| ==> fs[j].sourceFile in files && |fs[j].featureVector| == NUM_DIMENSIONS)
      && (|files| <= 0x1_0000_0000 ==> forall j, k :: 0 <= j < k < |fs| ==> fs[j].id < fs[k].id)
  {
    var o := ExtractFeaturesSpec(walk, assetDir, env);
    if !(o.Returned? && o.result.Ok?) {
      return;
    }
    var files := GetAudioFiles(walk);
    var run := FileRun(env);
    KeptShape(files, |files|, run);
    var fs := Kept(files, |files|, run).result.value;
    var ix := Selected(files, |files|, run);
    forall j | 0 <= j < |fs| ensures fs[j].sourceFile in files && |fs[j].featureVector| == NUM_DIMENSIONS {
      assert run(files[ix[j]]) == FileMfcc(files[ix[j]], ANALYSIS_RATE, env);
      FileMfccLength(files[ix[j]], env);
    }
    if |files| <= 0x1_0000_0000 {
      KeptIdsIncrease(files, run);
    }
  }

  // ---------------------------------------------------------------------------
  // save_to_file: the id -> path map
  // ---------------------------------------------------------------------------

  /** `feature_map.insert(feature.id(), feature.source_file())` over the features in order. */
  function FeatureMap(features: seq<Feature>): map<U32, string>
  {
    if |features| == 0 then map[]
    else
      var last := features[|features| - 1];
      FeatureMap(features[..|features| - 1])[last.id := last.sourceFile]
  }

  /** The keys are exactly the features' ids. */
  lemma {:induction false} FeatureMapKeys(features: seq<Feature>)
    ensures FeatureMap(features).Keys == set j | 0 <= j < |features| :: features[j].id
  {
    if |features| > 0 {
      var n := |features| - 1;
      var init := features[..n];
      FeatureMapKeys(init);
      var ids := set j | 0 <= j < |features| :: features[j].id;
      var initIds := set j | 0 <= j < n :: init[j].id;
      forall x | x in ids ensures x in initIds + {features[n].id} {
        var j :| 0 <= j < |features| && features[j].id == x;
        if j < n {
          assert init[j] == features[j];
        }
      }
      forall x | x in initIds ensures x in ids {
        var j :| 0 <= j < n && init[j].id == x;
        assert features[j] == init[j];
      }
    }
  }

  /** Each id maps to the path of the last feature carrying it. */
  lemma {:induction false} FeatureMapLastWins(features: seq<Feature>)
    ensures forall j :: 0 <= j < |features| && (forall j' :: j < j' < |features| ==> features[j'].id != features[j].id) ==>
      features[j].id in FeatureMap(features) && FeatureMap(features)[features[j].id] == features[j].sourceFile
  {
    if |features| > 0 {
      var n := |features| - 1;
      var init := features[..n];
      FeatureMapLastWins(init);
      forall j | 0 <= j < n && (forall j' :: j < j' < |features| ==> features[j'].id != features[j].id)
        ensures FeatureMap(features)[features[j].id] == features[j].sourceFile
      {
        assert init[j] == features[j];
        assert features[n].id != features[j].id;
        assert forall j' :: j < j' < n ==> init[j'] == features[j'];
      }
    }
  }

  /** A successful extraction over fewer than 2^32 files saves every feature's path under its id. */
  lemma SavedMapOfExtraction(walk: seq<DirEntry>, assetDir: string, env: Collaborators)
    ensures var o := ExtractFeaturesSpec(walk, assetDir, env);
      o.Returned? && o.result.Ok? && |GetAudioFiles(walk)| <= 0x1_0000_0000 ==>
      var fs := o.result.value;
      forall j :: 0 <= j < |fs| ==> fs[j].id in FeatureMap(fs) && FeatureMap(fs)[fs[j].id] == fs[j].sourceFile
  {
    var o := ExtractFeaturesSpec(walk, assetDir, env);
    if o.Returned? && o.result.Ok? && |GetAudioFiles(walk)| <= 0x1_0000_0000 {
      ExtractedFeatures(walk, assetDir, env);
      FeatureMapLastWins(o.result.value);
    }
  }

  method BuildFeatureMap(features: seq<Feature>) returns (featureMap: map<U32, string>)
    ensures featureMap == FeatureMap(features)
    ensures featureMap.Keys == set j | 0 <= j < |features| :: features[j].id
    ensures forall j :: 0 <= j < |features| && (forall j' :: j < j' < |features| ==> features[j'].id != features[j].id) ==>
      featureMap[features[j].id] == features[j].sourceFile
  {
    featureMap := map[];
    for i := 0 to |features|
      invariant featureMap == FeatureMap(features[..i])
    {
      assert features[..i + 1][..i] == features[..i];
      featureMap := featureMap[features[i].id := features[i].sourceFile];
    }
    assert features[..|features|] == features;
    FeatureMapKeys(features);
    FeatureMapLastWins(features);
  }
}
