/** How the viewer's tile requests meet the server's validation: the URL
    `/tiles/${mapId}/${urlKey}` built in public/app.js against the
    `/tiles/:mapId/:name` handler of server.js. */
module Interop {
  import opened Wrappers
  import Resolver
  import TileServer
  import EngineSpec

  /** The name the viewer asks for at a local cell: the key plus ".webp". */
  function UrlKey(r: nat, c: nat): (name: string)
    requires r < Resolver.MaxLabelledRows
  {
    Resolver.LocalKeyFromRC(r, c) + Resolver.PreferredExt
  }

  /** Rows A..Z: the server accepts the name, with the cell's key as the
      base and webp as the requested format. */
  lemma UrlKeyAccepted(r: nat, c: nat)
    requires r < 26
    ensures TileServer.ParseTileName(UrlKey(r, c))
         == Some(TileServer.TileName(Resolver.LocalKeyFromRC(r, c), TileServer.Webp))
  {
    var key := Resolver.LocalKeyFromRC(r, c);
    Resolver.LocalKeyShape(r, c);
    assert TileServer.IsBase(key);
    assert UrlKey(r, c) == TileServer.FileName(key, TileServer.Webp);
    TileServer.ParseTileNameComplete(key, TileServer.Webp);
  }

  /** A layer taller than 26 rows labels its 27th row '[' and beyond: the
      tile handler, given such a name, refuses it with 400 whatever exists
      on disk. The browser's URL normalisation before the handler is not
      modelled. */
  lemma UrlKeyRejectedBeyondZ(mapId: string, r: nat, c: nat, isFile: (string, string) -> bool, maxAge: int)
    requires 26 <= r < Resolver.MaxLabelledRows
    ensures TileServer.ParseTileName(UrlKey(r, c)).None?
    ensures TileServer.HandleTile(mapId, UrlKey(r, c), isFile, maxAge).BadRequest?
  {
    Resolver.LocalKeyShape(r, c);
    assert UrlKey(r, c)[0] == Resolver.LocalKeyFromRC(r, c)[0];
  }

  /** A resolved cell of a layer with a well-formed id, in rows A..Z, is
      served as the webp file when it exists, else as the png, else 404. */
  lemma ResolvedTileServed(l: Resolver.Layer, wr: int, wc: int, isFile: (string, string) -> bool, maxAge: int)
    requires Resolver.WellFormed(l) && Resolver.InGrid(l, wr, wc)
    requires TileServer.ValidMapId(l.id) && wr - l.offsetRow < 26
    ensures var h := Resolver.Hit(l, wr, wc);
      var base := Resolver.LocalKeyAt(l, wr, wc);
      TileServer.HandleTile(h.mapId, h.urlKey, isFile, maxAge) ==
        if isFile(l.id, TileServer.FileName(base, TileServer.Webp))
        then TileServer.Serve(l.id, TileServer.FileName(base, TileServer.Webp), maxAge)
        else if isFile(l.id, TileServer.FileName(base, TileServer.Png))
        then TileServer.Serve(l.id, TileServer.FileName(base, TileServer.Png), maxAge)
        else TileServer.NotFound
  {
    var r: nat := wr - l.offsetRow;
    var c: nat := wc - l.offsetCol;
    var base := Resolver.LocalKeyAt(l, wr, wc);
    UrlKeyAccepted(r, c);
    TileServer.ParseTileNameSound(UrlKey(r, c));
    assert Resolver.Hit(l, wr, wc).urlKey == TileServer.FileName(base, TileServer.Webp);
    TileServer.HandleTileFallback(l.id, base, TileServer.Webp, isFile, maxAge);
  }

  /** A check on the server's configuration alone: every row of the grid
      it is configured with has a letter its tile-name check accepts. The
      viewer does not read this setting; it takes each layer's grid from
      the layer list. */
  lemma ConfiguredRowsAccepted(env: map<string, string>, r: nat, c: nat)
    requires r < TileServer.LoadConfig(env).gridRows
    ensures TileServer.ParseTileName(UrlKey(r, c)).Some?
  {
    TileServer.LoadConfigBounds(env);
    UrlKeyAccepted(r, c);
  }

  /** The name every layer is preloaded with is the key of its cell (0, 0),
      which the server accepts. */
  lemma PreloadKeyAccepted()
    ensures EngineSpec.PreloadKey == UrlKey(0, 0)
    ensures TileServer.ParseTileName(EngineSpec.PreloadKey).Some?
  {
    Resolver.LocalKeyShape(0, 0);
    var key := Resolver.LocalKeyFromRC(0, 0);
    assert key == "A1";
    UrlKeyAccepted(0, 0);
  }
}
