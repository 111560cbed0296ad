/** A log that publishes its own tiles: the reader's assumptions on a source can be met. */
module HonestLog {
  import opened Merkle
  import opened TilePaths
  import opened TileModel

  /** The bytes of the first `n` nodes of a tile. */
  function TileBytes(H: Digest, D: Log, level: nat, index: nat, n: nat): (bytes: Bytes)
    requires level <= 7 && n <= Width(|D|, level, index)
    ensures |bytes| == 32 * n
  {
    if n == 0 then []
    else
      WidthInside(D, level, index, n - 1);
      TileBytes(H, D, level, index, n - 1) + TileNode(H, D, level, 256 * index + n - 1)
  }

  lemma {:induction false} TileBytesHold(H: Digest, D: Log, level: nat, index: nat, n: nat)
    requires level <= 7 && n <= Width(|D|, level, index)
    ensures HoldsTile(H, D, level, index, n, TileBytes(H, D, level, index, n))
  {
    hide Width, TileNode, NodeInside;
    if n > 0 {
      WidthInside(D, level, index, n - 1);
      TileBytesHold(H, D, level, index, n - 1);
      var shorter, bytes := TileBytes(H, D, level, index, n - 1), TileBytes(H, D, level, index, n);
      forall j | 0 <= j < n ensures NodeIs(H, D, level, 256 * index + j, Chunk(bytes, j)) {
        if j < n - 1 {
          assert Chunk(bytes, j) == Chunk(shorter, j);
        } else {
          assert Chunk(bytes, j) == TileNode(H, D, level, 256 * index + n - 1);
        }
      }
    }
  }

  /** `path` names the tile of `D` at these coordinates. */
  ghost predicate Names(D: Log, path: string, c: (nat, nat, nat)) {
    && c.0 <= 7 && ValidCoordinates(c.0, c.2)
    && path == TilePath(c.0, c.1, c.2) && c.2 == Width(|D|, c.0, c.1)
  }

  ghost function Publish(H: Digest, D: Log, path: string): Fetch {
    if exists c :: Names(D, path, c) then
      var c :| Names(D, path, c);
      Body(TileBytes(H, D, c.0, c.1, c.2))
    else Missing
  }

  ghost function HonestSource(H: Digest, D: Log): TileSource {
    (path, t) => Publish(H, D, path)
  }

  lemma PublishIs(H: Digest, D: Log, level: nat, index: nat, width: nat)
    requires level <= 7 && ValidCoordinates(level, width)
    ensures Publish(H, D, TilePath(level, index, width))
         == if width == Width(|D|, level, index) then Body(TileBytes(H, D, level, index, width)) else Missing
  {
    hide Width, TileBytes, TilePath;
    var path := TilePath(level, index, width);
    if width == Width(|D|, level, index) { assert Names(D, path, (level, index, width)); }
    forall c | Names(D, path, c) ensures c == (level, index, width) {
      TilePathInjective(c.0, c.1, c.2, level, index, width);
    }
  }

  lemma WidthCapped(treeSize: nat, level: nat, index: nat)
    ensures Width(treeSize, level, index) <= 256
  {
  }

  /** The honest source is faithful and serves every tile of the tree. */
  lemma HonestSourceServes(H: Digest, D: Log)
    ensures Faithful(H, D, HonestSource(H, D)) && Serving(|D|, HonestSource(H, D))
  {
    hide Width, TileBytes, TilePath, HoldsTile, Publish;
    var source := HonestSource(H, D);
    forall level: nat, index: nat, width: nat, t: nat | level <= 7 && ValidCoordinates(level, width)
      ensures
        var f := source(TilePath(level, index, width), t);
        f.Body? && |f.bytes| == 32 * width ==> exists E: Log :: D <= E && HoldsTile(H, E, level, index, width, f.bytes)
    {
      PublishIs(H, D, level, index, width);
      if width == Width(|D|, level, index) { TileBytesHold(H, D, level, index, width); }
    }
    forall level: nat, index: nat, t: nat | level <= 7 && Width(|D|, level, index) > 0
      ensures Answers(source(TilePath(level, index, Width(|D|, level, index)), t), Width(|D|, level, index))
    {
      WidthCapped(|D|, level, index);
      PublishIs(H, D, level, index, Width(|D|, level, index));
    }
  }
}
