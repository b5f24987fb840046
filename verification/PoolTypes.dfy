/** Ticks, the price grid and the values a pool is made of. */
module PoolTypes {
  import opened Arith
  import opened Words
  import opened SqrtPriceMath

  const MIN_TICK: int := -887272
  const MAX_TICK: int := 887272

  type TickIndex = t: int | MIN_TICK <= t <= MAX_TICK
  type Spacing = s: int | 1 <= s <= 32767 witness 1

  type I128 = x: int | 0 - W127 <= x < W127

  /** `for_spacing`: the tick is a multiple of the pool's spacing. */
  predicate Aligned(tick: int, spacing: Spacing) {
    tick % spacing == 0
  }

  // ------------------------------------------------------------- price grid

  /**
    The square-root price of every tick: any strictly increasing map that pins
    the two ends of the tick range to the protocol's price bounds.
  */
  ghost predicate IsGrid(price: int -> Price) {
    && price(MIN_TICK) == MIN_SQRT_PRICE
    && price(MAX_TICK) == MAX_SQRT_PRICE
    && forall a, b :: MIN_TICK <= a < b <= MAX_TICK ==> price(a) < price(b)
  }

  type Grid = price: int -> Price | IsGrid(price) ghost witness SampleGrid()

  ghost function SampleGrid(): (g: int -> Price)
    ensures IsGrid(g)
  {
    (t: int) => if t <= MIN_TICK then MIN_SQRT_PRICE
                else if t >= MAX_TICK then MAX_SQRT_PRICE
                else MIN_SQRT_PRICE + (t - MIN_TICK)
  }

  /** Greatest tick at or below `from` whose price does not exceed p. */
  function TickAtFrom(grid: Grid, p: Price, from: TickIndex): TickIndex
    decreases from - MIN_TICK
  {
    if from == MIN_TICK || grid(from) <= p then from else TickAtFrom(grid, p, from - 1)
  }

  /** `get_tick_at_sqrt_price`: the greatest tick whose price is at most p. */
  function TickAt(grid: Grid, p: Price): TickIndex {
    TickAtFrom(grid, p, MAX_TICK)
  }

  lemma {:induction false} TickAtFromIsFloor(grid: Grid, p: Price, from: TickIndex)
    requires from < MAX_TICK ==> p < grid(from + 1)
    ensures var t := TickAtFrom(grid, p, from);
            grid(t) <= p && (t < MAX_TICK ==> p < grid(t + 1))
    decreases from - MIN_TICK
  {
    if from != MIN_TICK && grid(from) > p {
      TickAtFromIsFloor(grid, p, from - 1);
    }
  }

  lemma TickAtIsFloor(grid: Grid, p: Price)
    ensures var t := TickAt(grid, p);
            grid(t) <= p && (t < MAX_TICK ==> p < grid(t + 1))
  {
    TickAtFromIsFloor(grid, p, MAX_TICK);
  }

  lemma GridMono(grid: Grid, a: TickIndex, b: TickIndex)
    ensures a <= b <==> grid(a) <= grid(b)
    ensures a < b <==> grid(a) < grid(b)
  {
  }

  /** The price lies between its tick and the next one; after a downward landing it may equal the upper end. */
  predicate Bracket(grid: Grid, tick: int, p: Price) {
    && MIN_TICK <= tick <= MAX_TICK
    && grid(tick) <= p
    && (tick < MAX_TICK ==> p <= grid(tick + 1))
  }

  // ------------------------------------------------------------ pool values

  /** Liquidity and fee accounting of one initialized tick. */
  datatype TickInner = TickInner(gross: U128, net: I128, outside0: U256, outside1: U256)

  const EMPTY_TICK: TickInner := TickInner(0, 0, 0, 0)

  datatype PositionKey = PositionKey(owner: nat, lower: TickIndex, upper: TickIndex, salt: nat)

  /** One position: its liquidity and the inside fee growth when it was last touched. */
  datatype Position = Position(liquidity: U128, last0: U256, last1: U256)

  const EMPTY_POSITION: Position := Position(0, 0, 0)

  type Ticks = map<int, TickInner>
  type Positions = map<PositionKey, Position>

  datatype PoolState = PoolState(price: Price, tick: int, liquidity: U128, growth0: U256, growth1: U256)

  /** The value of a pool, apart from its fee configuration. */
  datatype PoolValue = PoolValue(state: PoolState, ticks: Ticks, positions: Positions)

  function LiquidityOf(positions: Positions, k: PositionKey): nat {
    if k in positions then positions[k].liquidity else 0
  }

  /** The stored position, or the empty one an entry starts from. */
  function PositionAt(positions: Positions, k: PositionKey): Position {
    if k in positions then positions[k] else EMPTY_POSITION
  }

  /** Outside fee growth of a tick in one token. */
  function Outside(tick: TickInner, token0: bool): U256 {
    if token0 then tick.outside0 else tick.outside1
  }

  function OutsideAt(ticks: Ticks, t: int, token0: bool): U256 {
    if t in ticks then Outside(ticks[t], token0) else 0
  }

  function Last(position: Position, token0: bool): U256 {
    if token0 then position.last0 else position.last1
  }

  function Growth(state: PoolState, token0: bool): U256 {
    if token0 then state.growth0 else state.growth1
  }

  // ---------------------------------------------------------- tick spacing

  /** Number of compressed ticks between the ends of the tick range. */
  function UsableTicks(spacing: Spacing): nat {
    FloorDivMonotone(MIN_TICK, MAX_TICK, spacing);
    FloorDiv(MAX_TICK, spacing) - FloorDiv(MIN_TICK, spacing) + 1
  }

  lemma FloorDivMonotone(a: int, b: int, d: int)
    requires a <= b && d > 0
    ensures FloorDiv(a, d) <= FloorDiv(b, d)
  {
    FloorDivBounds(a, d);
    FloorDivAtLeast(b, d, FloorDiv(a, d));
  }

  /** `max_liquidity_per_tick`. */
  function MaxLiquidityPerTick(spacing: Spacing): nat {
    FloorDivMonotone(MIN_TICK, MAX_TICK, spacing);
    Div(W128 - 1, UsableTicks(spacing))
  }

  /** The cap is the greatest amount all usable ticks can carry within a u128; with two ticks or more it is an i128. */
  lemma CapTimesTicks(spacing: Spacing)
    ensures UsableTicks(spacing) >= 2
    ensures MaxLiquidityPerTick(spacing) * UsableTicks(spacing) < W128
         <= (MaxLiquidityPerTick(spacing) + 1) * UsableTicks(spacing)
    ensures MaxLiquidityPerTick(spacing) < W127
  {
    hide Div;
    FloorDivAtLeast(MAX_TICK, spacing, 0);
    FloorDivAtLeast(MIN_TICK, spacing, 0);
    FloorDivMonotone(MIN_TICK, MAX_TICK, spacing);
    var n := UsableTicks(spacing);
    FloorBounds(W128 - 1, n);
    var cap := Div(W128 - 1, n);
    MulMono(2, n, cap);
    TwiceW127();
  }

  lemma TwiceW127()
    ensures W128 == 2 * W127
  {
  }

  // ---------------------------------------------------------- word boundary

  function Clamp(x: int): TickIndex {
    Max(MIN_TICK, Min(x, MAX_TICK))
  }

  /** Where a step ends when the current 256-tick word holds no further initialized tick. */
  function WordBoundary(tick: int, spacing: Spacing, zeroForOne: bool): TickIndex {
    var compressed := FloorDiv(tick, spacing);
    Clamp(if zeroForOne then (compressed / 256 * 256) * spacing
          else ((compressed + 1) / 256 * 256 + 255) * spacing)
  }

  lemma WordBoundarySide(tick: TickIndex, spacing: Spacing, zeroForOne: bool)
    ensures zeroForOne ==> WordBoundary(tick, spacing, zeroForOne) <= tick
    ensures !zeroForOne && tick < MAX_TICK ==> tick < WordBoundary(tick, spacing, zeroForOne)
  {
    var compressed := FloorDiv(tick, spacing);
    FloorDivBounds(tick, spacing);
    if zeroForOne {
      MulMono(compressed / 256 * 256, compressed, spacing);
    } else {
      MulMono(compressed + 1, (compressed + 1) / 256 * 256 + 255, spacing);
      assert (compressed + 1) * spacing == compressed * spacing + spacing;
    }
  }

  /**
    The boundary is the near end of the 256 compressed ticks of the word, going
    down, and the far end of the word of the next compressed tick, going up;
    past the ends of the tick range it is the end of the range.
  */
  lemma WordBoundaryIs(tick: TickIndex, spacing: Spacing, zeroForOne: bool, compressed: int, end: int)
    requires compressed * spacing <= tick < (compressed + 1) * spacing
    requires if zeroForOne then end % 256 == 0 && end <= compressed < end + 256
             else end % 256 == 255 && compressed < end <= compressed + 256
    ensures WordBoundary(tick, spacing, zeroForOne)
         == if end * spacing < -887_272 then -887_272 else if end * spacing > 887_272 then 887_272 else end * spacing
  {
    hide FloorDiv;
    FloorDivAtLeast(tick, spacing, compressed);
    FloorDivAtLeast(tick, spacing, compressed + 1);
    WordEnd(zeroForOne, compressed, end);
  }

  lemma WordEnd(zeroForOne: bool, compressed: int, end: int)
    requires if zeroForOne then end % 256 == 0 && end <= compressed < end + 256
             else end % 256 == 255 && compressed < end <= compressed + 256
    ensures end == if zeroForOne then compressed / 256 * 256 else (compressed + 1) / 256 * 256 + 255
  {
  }
}
