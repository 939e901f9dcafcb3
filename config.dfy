/** The simulation constants of main.cpp:15-30; the display constants there
    are rendering and are not part of this model.  The grid is a
    SIZE x SIZE array whose outermost rows and columns form a border around
    the RAW_SIZE x RAW_SIZE interior; the heat map is a coarser padded array
    with one cell per HEAT_BLOCKSIZE x HEAT_BLOCKSIZE block of the interior. */
module Config {
  const RAW_SIZE: int := 250
  const SIZE: int := RAW_SIZE + 2
  const FIRST: int := 1
  const LAST: int := SIZE - 1
  /** 5% of the interior, as the truncated product RAW_SIZE * RAW_SIZE * 0.05. */
  const INIT_ALIVE: int := RAW_SIZE * RAW_SIZE / 20
  const HEAT_BLOCKSIZE: int := RAW_SIZE / 25
  const HEAT_RAW_SIZE: int := RAW_SIZE / HEAT_BLOCKSIZE
  const HEAT_SIZE: int := HEAT_RAW_SIZE + 2
  const HEAT_FIRST: int := 1
  const HEAT_LAST: int := HEAT_SIZE - 1
  const NUKE_RADIUS: int := 20

  /** The values the definitions above evaluate to. */
  lemma Values()
    ensures SIZE == 252 && LAST == 251 && INIT_ALIVE == 3125
    ensures HEAT_BLOCKSIZE == 10 && HEAT_RAW_SIZE == 25 && HEAT_SIZE == 27 && HEAT_LAST == 26
  {
  }
}
