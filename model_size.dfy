/**
 * The memory-based choice of the Whisper model size made once at start-up
 * (`recommend_model_size` in app.py). The available memory is a parameter
 * here, in bytes; the model sizes form a chain tiny < base < small < medium.
 */
module ModelSize {

  datatype Tier = Tiny | Base | Small | Medium

  /** Position of a tier in the order of capability and memory cost. */
  function Rank(t: Tier): nat {
    match t
    case Tiny => 0
    case Base => 1
    case Small => 2
    case Medium => 3
  }

  /** The model name handed to `whisper.load_model`. */
  function Name(t: Tier): (s: string)
    ensures s in {"tiny", "base", "small", "medium"}
  {
    match t
    case Tiny => "tiny"
    case Base => "base"
    case Small => "small"
    case Medium => "medium"
  }

  /** One gigabyte as the source counts it (1e9 bytes, not 2^30). */
  const GB: nat := 1_000_000_000

  /** The least amount of available memory for which a tier is chosen. */
  function MinimumBytes(t: Tier): nat {
    match t
    case Tiny => 0
    case Base => 4 * GB
    case Small => 8 * GB
    case Medium => 16 * GB
  }

  /** The tier for `availableBytes` of free memory: the largest tier whose
      memory threshold is met. */
  function RecommendModelSize(availableBytes: nat): (t: Tier)
    ensures MinimumBytes(t) <= availableBytes
    ensures forall u: Tier :: MinimumBytes(u) <= availableBytes ==> Rank(u) <= Rank(t)
  {
    if availableBytes < 4 * GB then Tiny
    else if availableBytes < 8 * GB then Base
    else if availableBytes < 16 * GB then Small
    else Medium
  }

  /** The four half-open bands, each threshold itself belonging to the higher tier. */
  lemma Thresholds(availableBytes: nat)
    ensures RecommendModelSize(availableBytes) == Tiny <==> availableBytes < 4 * GB
    ensures RecommendModelSize(availableBytes) == Base <==> 4 * GB <= availableBytes < 8 * GB
    ensures RecommendModelSize(availableBytes) == Small <==> 8 * GB <= availableBytes < 16 * GB
    ensures RecommendModelSize(availableBytes) == Medium <==> 16 * GB <= availableBytes
  {
  }

  /** More available memory never yields a smaller model. */
  lemma Monotone(m1: nat, m2: nat)
    requires m1 <= m2
    ensures Rank(RecommendModelSize(m1)) <= Rank(RecommendModelSize(m2))
  {
    var t1 := RecommendModelSize(m1);
    assert MinimumBytes(t1) <= m2;
  }

  /** Distinct tiers load distinct models. */
  lemma NameInjective(t: Tier, u: Tier)
    ensures Name(t) == Name(u) <==> t == u
  {
  }
}
